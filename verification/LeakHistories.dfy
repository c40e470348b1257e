/**
 The run of checks for leaks (leak_detector_impl.cc:172-259): what samples each of the two tiers
 has been given, and what a suspicion says about the outstanding allocations.
 */
module LeakHistories {
  import opened RankedLists
  import opened LeakAnalyzers
  import opened CallStackTables
  import opened LeakCounts

  // ---------- the samples of one check ----------

  /** The outstanding allocations of every slot. */
  ghost function SizeList(o: Outstanding): seq<Entry> {
    seq(K_NUM_SIZE_ENTRIES, i requires 0 <= i < K_NUM_SIZE_ENTRIES =>
      Entry(SizeValue(4 * i), o.InSlot(i)))
  }

  ghost function SizeSample(o: Outstanding): Sample {
    Top(Ranked(SizeList(o)), K_RANKED_LIST_SIZE)
  }

  /** s has every call stack that an outstanding allocation of slot i carries, once, and with the
      number of those allocations. */
  ghost predicate StacksListed(s: seq<Entry>, o: Outstanding, i: int) {
    && Distinct(s)
    && (forall k :: 0 <= k < |s| ==>
          s[k].value.CallStackValue? && s[k].value.call_stack != 0
          && s[k].count == o.WithStack(i, s[k].value.call_stack) > 0)
    && (forall c: nat :: c != 0 && o.WithStack(i, c) > 0 ==> Entry(CallStackValue(c), o.WithStack(i, c)) in s)
  }

  ghost predicate IsStackSample(x: Sample, o: Outstanding, i: int) {
    exists s: seq<Entry> :: StacksListed(s, o, i) && x == Top(Ranked(s), K_RANKED_LIST_SIZE)
  }

  /** The table of slot i is not empty. */
  ghost predicate HasStacks(o: Outstanding, i: int) {
    exists c: nat :: c != 0 && o.WithStack(i, c) > 0
  }

  /** What a table lists is what the outstanding allocations carry, and so is its emptiness. */
  lemma TableLists(table: map<nat, uint32>, slot: Slot, o: Outstanding, i: int)
    requires CountsOk(table, slot.tracked) && SlotAgrees(slot, o, i)
    ensures HasStacks(o, i) <==> table != map[]
    ensures forall s :: Lists(s, table) ==> StacksListed(s, o, i)
  {
    if table != map[] {
      var c :| c in table;
      assert c != 0 && o.WithStack(i, c) > 0;
    }
    forall s | Lists(s, table) ensures StacksListed(s, o, i) {
      forall c: nat | c != 0 && o.WithStack(i, c) > 0
        ensures Entry(CallStackValue(c), o.WithStack(i, c)) in s
      {
        assert c in table && table[c] == o.WithStack(i, c);
      }
    }
  }

  // ---------- the samples of a run of checks ----------

  /** The checks at which slot i's table was not empty; at the others it is skipped. */
  ghost function TestedChecks(checks: seq<Outstanding>, i: int): seq<Outstanding> {
    if checks == [] then []
    else
      var o := checks[|checks| - 1];
      TestedChecks(checks[..|checks| - 1], i) + if HasStacks(o, i) then [o] else []
  }

  ghost predicate SizeHistory(samples: seq<Sample>, checks: seq<Outstanding>) {
    |samples| == |checks| && forall k :: 0 <= k < |checks| ==> samples[k] == SizeSample(checks[k])
  }

  ghost predicate StackHistory(samples: seq<Sample>, checks: seq<Outstanding>, i: int) {
    var tested := TestedChecks(checks, i);
    |samples| == |tested| && forall k :: 0 <= k < |tested| ==> IsStackSample(samples[k], tested[k], i)
  }

  /** A check adds a sample of what is outstanding, unless there is nothing in the table. */
  ghost predicate SampleAdded(samples: seq<Sample>, samples': seq<Sample>, o: Outstanding, i: int) {
    if HasStacks(o, i) then
      samples' != [] && samples'[..|samples'| - 1] == samples && IsStackSample(samples'[|samples'| - 1], o, i)
    else
      samples' == samples
  }

  lemma ExtendStackHistory(samples: seq<Sample>, samples': seq<Sample>, checks: seq<Outstanding>,
                           o: Outstanding, i: int)
    requires StackHistory(samples, checks, i) && SampleAdded(samples, samples', o, i)
    ensures StackHistory(samples', checks + [o], i)
  {
    assert (checks + [o])[..|checks|] == checks;
  }

  /** The last sample is of the last check, if that was not skipped. */
  lemma LastSample(samples: seq<Sample>, checks: seq<Outstanding>, i: int)
    requires StackHistory(samples, checks, i) && checks != [] && HasStacks(checks[|checks| - 1], i)
    ensures samples != [] && IsStackSample(samples[|samples| - 1], checks[|checks| - 1], i)
  {
    var front := TestedChecks(checks[..|checks| - 1], i);
    assert TestedChecks(checks, i) == front + [checks[|checks| - 1]];
  }

  lemma {:induction false} FewerTested(checks: seq<Outstanding>, i: int)
    ensures |TestedChecks(checks, i)| <= |checks|
  {
    if checks != [] {
      FewerTested(checks[..|checks| - 1], i);
    }
  }

  // ---------- growth ----------

  /** From check k - 1 to check k, more allocations of slot i. */
  ghost predicate SizeRose(checks: seq<Outstanding>, i: int, k: int) {
    0 < k < |checks| && checks[k - 1].InSlot(i) < checks[k].InSlot(i)
  }

  /** From check k - 1 to check k, more allocations of slot i with call stack c. */
  ghost predicate StackRose(checks: seq<Outstanding>, i: int, c: nat, k: int) {
    0 < k < |checks| && checks[k - 1].WithStack(i, c) < checks[k].WithStack(i, c)
  }

  /** Over the last t + 1 checks, ever more allocations of slot i. */
  ghost predicate SizeKeptRising(checks: seq<Outstanding>, i: int, t: nat) {
    forall k :: |checks| - t <= k < |checks| ==> SizeRose(checks, i, k)
  }

  ghost predicate StackKeptRising(checks: seq<Outstanding>, i: int, c: nat, t: nat) {
    forall k :: |checks| - t <= k < |checks| ==> StackRose(checks, i, c, k)
  }

  /** An entry of the top of a ranked list was listed. */
  lemma CountWasListed(s: seq<Entry>, n: nat, v: Value)
    requires CountOf(Top(Ranked(s), n), v).Some?
    ensures Entry(v, CountOf(Top(Ranked(s), n), v).value) in s
  {
    var top := Top(Ranked(s), n);
    CountOfSpec(top, v);
    RankedIsPermutation(s);
    var i :| 0 <= i < |top| && top[i] == Entry(v, CountOf(top, v).value);
    assert top[i] == Ranked(s)[i];
  }

  lemma SizeCountIsInSlot(o: Outstanding, i: nat)
    requires i < K_NUM_SIZE_ENTRIES && CountOf(SizeSample(o), SizeValue(4 * i)).Some?
    ensures CountOf(SizeSample(o), SizeValue(4 * i)).value == o.InSlot(i)
  {
    var v := SizeValue(4 * i);
    CountWasListed(SizeList(o), K_RANKED_LIST_SIZE, v);
    var k :| 0 <= k < K_NUM_SIZE_ENTRIES && SizeList(o)[k] == Entry(v, CountOf(SizeSample(o), v).value);
  }

  lemma StackCountIsWithStack(x: Sample, o: Outstanding, i: int, c: nat)
    requires IsStackSample(x, o, i) && CountOf(x, CallStackValue(c)).Some?
    ensures c != 0 && CountOf(x, CallStackValue(c)).value == o.WithStack(i, c)
  {
    var s: seq<Entry> :| StacksListed(s, o, i) && x == Top(Ranked(s), K_RANKED_LIST_SIZE);
    CountWasListed(s, K_RANKED_LIST_SIZE, CallStackValue(c));
    var k :| 0 <= k < |s| && s[k] == Entry(CallStackValue(c), CountOf(x, CallStackValue(c)).value);
  }

  /** What is in a stack sample is outstanding. */
  lemma SampleIsOutstanding(x: Sample, o: Outstanding, i: int, v: Value)
    requires IsStackSample(x, o, i) && Occurs(x, v)
    ensures v.CallStackValue? && v.call_stack != 0 && o.WithStack(i, v.call_stack) > 0
  {
    var s: seq<Entry> :| StacksListed(s, o, i) && x == Top(Ranked(s), K_RANKED_LIST_SIZE);
    RankedValues(s, K_RANKED_LIST_SIZE, v);
  }

  /** What the analyzer of slot i suspects after a check that was not skipped is outstanding. */
  lemma SuspectIsOutstanding(analyzer: LeakAnalyzer, checks: seq<Outstanding>, i: int, v: Value)
    requires analyzer.Valid() && StackHistory(analyzer.samples, checks, i) && v in analyzer.suspected_leaks
    requires checks != [] && HasStacks(checks[|checks| - 1], i)
    ensures v.CallStackValue? && v.call_stack != 0 && checks[|checks| - 1].WithStack(i, v.call_stack) > 0
  {
    analyzer.ReportedValuesOccur(v);
    LastSample(analyzer.samples, checks, i);
    SampleIsOutstanding(analyzer.samples[|analyzer.samples| - 1], checks[|checks| - 1], i, v);
  }

  /** A size that grew from sample to sample grew from check to check. */
  lemma SizeGrowth(samples: seq<Sample>, checks: seq<Outstanding>, i: nat, t: nat)
    requires SizeHistory(samples, checks) && i < K_NUM_SIZE_ENTRIES
    requires GrewFor(samples, SizeValue(4 * i), t)
    ensures SizeKeptRising(checks, i, t)
  {
    forall k | |checks| - t <= k < |checks| ensures SizeRose(checks, i, k) {
      assert GrewAt(samples, k, SizeValue(4 * i));
      SizeCountIsInSlot(checks[k - 1], i);
      SizeCountIsInSlot(checks[k], i);
    }
  }

  /** A call stack that grew from sample to sample grew over the checks that were not skipped. */
  lemma StackGrowth(samples: seq<Sample>, checks: seq<Outstanding>, i: int, c: nat, t: nat)
    requires StackHistory(samples, checks, i) && GrewFor(samples, CallStackValue(c), t)
    ensures StackKeptRising(TestedChecks(checks, i), i, c, t)
    ensures t > 0 ==> c != 0
  {
    var tested := TestedChecks(checks, i);
    forall k | |tested| - t <= k < |tested|
      ensures StackRose(tested, i, c, k) && c != 0
    {
      assert GrewAt(samples, k, CallStackValue(c));
      StackCountIsWithStack(samples[k - 1], tested[k - 1], i, c);
      StackCountIsWithStack(samples[k], tested[k], i, c);
    }
    if t > 0 {
      assert StackRose(tested, i, c, |tested| - 1);
    }
  }

  /** Check k was one at which slot i's table was not empty. */
  ghost predicate NotSkipped(checks: seq<Outstanding>, i: int, k: int) {
    0 <= k < |checks| && HasStacks(checks[k], i)
  }

  /** Growth over the last t + 1 checks that were not skipped is growth over each of the last t
      checks exactly if none of these was skipped. */
  lemma CheckToCheck(checks: seq<Outstanding>, i: int, c: nat, t: nat)
    requires c != 0 && StackKeptRising(TestedChecks(checks, i), i, c, t)
    ensures StackKeptRising(checks, i, c, t)
      <==> forall k :: |checks| - t <= k < |checks| ==> NotSkipped(checks, i, k)
  {
    if forall k :: |checks| - t <= k < |checks| ==> NotSkipped(checks, i, k) {
      NoneSkipped(checks, i, c, t);
    } else {
      var k :| |checks| - t <= k < |checks| && !NotSkipped(checks, i, k);
      assert !StackRose(checks, i, c, k);
    }
  }

  lemma {:induction false} NoneSkipped(checks: seq<Outstanding>, i: int, c: nat, t: nat)
    requires c != 0 && StackKeptRising(TestedChecks(checks, i), i, c, t)
    requires forall k :: |checks| - t <= k < |checks| ==> NotSkipped(checks, i, k)
    ensures StackKeptRising(checks, i, c, t)
  {
    if t > 0 {
      var n := |checks| - 1;
      assert NotSkipped(checks, i, n);
      var front, tested := checks[..n], TestedChecks(checks, i);
      var before := TestedChecks(front, i);
      assert tested == before + [checks[n]];
      assert StackRose(tested, i, c, |before|);
      FewerTested(front, i);
      forall k | |before| - (t - 1) <= k < |before| ensures StackRose(before, i, c, k) {
        assert StackRose(tested, i, c, k);
      }
      forall k | n - (t - 1) <= k < n ensures NotSkipped(front, i, k) {
        assert NotSkipped(checks, i, k);
      }
      NoneSkipped(front, i, c, t - 1);
      LastRise(front, checks[n], i, c);
      forall k | |checks| - t <= k < |checks| ensures StackRose(checks, i, c, k) {
        assert k < n ==> StackRose(front, i, c, k);
        assert checks == front + [checks[n]];
      }
    }
  }

  /** A rise since the last check that was not skipped is one since the last check. */
  lemma LastRise(front: seq<Outstanding>, o: Outstanding, i: int, c: nat)
    requires c != 0 && front != []
    requires var before := TestedChecks(front, i);
      before != [] && before[|before| - 1].WithStack(i, c) < o.WithStack(i, c)
    ensures StackRose(front + [o], i, c, |front|)
  {
  }

  /** n live allocations of size 4, with call stack object 7. */
  ghost function Example(n: nat): Outstanding {
    Outstanding(map a | a in Below(n) :: AllocInfo(4, 7), [])
  }

  lemma ExampleCounts(n: nat)
    ensures Example(n).WithStack(1, 7) == n
    ensures HasStacks(Example(n), 1) <==> n > 0
  {
    var m := Example(n).live;
    assert SizeToIndex(4) == 1;
    assert LiveWith(m, 1, 7) == Below(n);
    if n > 0 {
      assert Example(n).WithStack(1, 7) > 0;
    } else {
      forall c: nat ensures Example(0).WithStack(1, c) == 0 {
        assert LiveWith(m, 1, c) == {};
      }
    }
  }

  function Below(n: nat): (s: set<nat>)
    ensures |s| == n && forall a: nat :: a in s <==> a < n
  {
    if n == 0 then {}
    else
      var m: nat := n - 1;
      Below(m) + {m}
  }

  /** With 1, 2, 0 and 3 allocations at four checks, the third is skipped: the call stack rose over
      the last three checks of its table, but not from each check to the next. */
  lemma SkippedCheck()
    ensures var checks := [Example(1), Example(2), Example(0), Example(3)];
      && StackKeptRising(TestedChecks(checks, 1), 1, 7, 2)
      && !StackKeptRising(checks, 1, 7, 2)
  {
    var checks := [Example(1), Example(2), Example(0), Example(3)];
    ExampleCounts(0);
    ExampleCounts(1);
    ExampleCounts(2);
    ExampleCounts(3);
    assert checks[..3] == [Example(1), Example(2), Example(0)];
    assert checks[..3][..2] == [Example(1), Example(2)];
    assert checks[..3][..2][..1] == [Example(1)];
    assert TestedChecks(checks[..3][..2][..1], 1) == TestedChecks([], 1) + [Example(1)];
    assert TestedChecks(checks[..3], 1) == [Example(1), Example(2)];
    assert TestedChecks(checks, 1) == [Example(1), Example(2), Example(3)];
    assert !StackRose(checks, 1, 7, 2);
  }
}
