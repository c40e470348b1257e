/**
 Leak analysis over successive samples (leak_analyzer.cc).

 The pure part defines what one analysis suspects and how long a value has been suspected
 without a break; the class keeps its histogram and its reports in step with that.
 */
module LeakAnalyzers {
  import opened IntSets
  import opened Options
  import opened RankedLists

  const TWO_32 := 0x1_0000_0000
  const INT_MAX := 0x7fff_ffff
  const COUNT_LIMIT := 0x4000_0000

  lemma LimitsInNumbers()
    ensures TWO_32 == 0x1_0000_0000 && INT_MAX == 0x7fff_ffff && COUNT_LIMIT == 0x4000_0000
  {
  }

  /** Conversion to a 32-bit signed int. */
  function ToInt32(n: int): int {
    var u := n % TWO_32;
    if u <= INT_MAX then u else u - TWO_32
  }

  type Sample = seq<Entry>

  /** Counts small enough that doubling a difference of two of them cannot overflow. */
  predicate SampleOk(s: Sample) {
    forall i :: 0 <= i < |s| ==> 0 <= s[i].count < COUNT_LIMIT
  }

  predicate Distinct(s: Sample) {
    forall i, j :: 0 <= i < j < |s| ==> s[i].value != s[j].value
  }

  ghost predicate Occurs(s: Sample, v: Value) {
    exists i :: 0 <= i < |s| && s[i].value == v
  }

  // ---------- one analysis ----------

  /** The count of the first entry with value v. */
  function CountOf(s: Sample, v: Value): Option<int> {
    if s == [] then None
    else if s[0].value == v then Some(s[0].count)
    else CountOf(s[1..], v)
  }

  /** CountOf finds an entry with value v exactly when there is one, and no earlier one. */
  lemma {:induction false} CountOfSpec(s: Sample, v: Value)
    ensures CountOf(s, v).None? ==> forall i :: 0 <= i < |s| ==> s[i].value != v
    ensures CountOf(s, v).Some? ==>
      exists i :: 0 <= i < |s| && s[i] == Entry(v, CountOf(s, v).value) && forall j :: 0 <= j < i ==> s[j].value != v
  {
    if s != [] && s[0].value != v {
      CountOfSpec(s[1..], v);
      if CountOf(s, v).Some? {
        var i :| 0 <= i < |s[1..]| && s[1..][i] == Entry(v, CountOf(s, v).value)
          && forall j :: 0 <= j < i ==> s[1..][j].value != v;
        assert s[i + 1] == s[1..][i];
        assert forall j :: 0 < j < i + 1 ==> s[j] == s[1..][j - 1];
      } else {
        assert forall j :: 0 < j < |s| ==> s[j] == s[1..][j - 1];
      }
    } else if s != [] {
      assert s[0] == Entry(v, s[0].count);
    }
  }

  function DeltaOf(e: Entry, prev: Sample): seq<Entry> {
    match CountOf(prev, e.value)
    case None => []
    case Some(c) => [Entry(e.value, ToInt32(e.count - c))]
  }

  /** The changes since the previous sample, in the order of the current one. */
  function Deltas(cur: Sample, prev: Sample): seq<Entry> {
    if cur == [] then [] else Deltas(cur[..|cur| - 1], prev) + DeltaOf(cur[|cur| - 1], prev)
  }

  ghost function RankedDeltas(cur: Sample, prev: Sample, n: nat): seq<Entry> {
    Top(Ranked(Deltas(cur, prev)), n)
  }

  /** There is a drop by more than half just before position k. */
  predicate IsDrop(d: seq<Entry>, k: nat) {
    0 < k < |d| && d[k - 1].count > d[k].count * 2
  }

  /** k is the number of entries before the first drop, or 0 if the list does not start with a
      rise or has no drop. */
  ghost predicate IsSuspectCount(d: seq<Entry>, k: nat) {
    if |d| > 1 && d[0].count > 0 && (exists j: nat :: IsDrop(d, j)) then
      IsDrop(d, k) && forall j: nat :: j < k ==> !IsDrop(d, j)
    else
      k == 0
  }

  /** The values that the analysis of cur after prev suspects. */
  ghost predicate Suspected(cur: Sample, prev: Sample, n: nat, v: Value) {
    var d := RankedDeltas(cur, prev, n);
    exists k: nat, i :: IsSuspectCount(d, k) && 0 <= i < k <= |d| && d[i].value == v
  }

  /** The values suspected by the analysis of cur after prev, as a set. */
  ghost predicate AreSuspects(vs: set<Value>, cur: Sample, prev: Sample, n: nat) {
    forall v :: v in vs <==> Suspected(cur, prev, n, v)
  }

  // ---------- a run of analyses ----------

  /** The sample before number i; there is none before the first. */
  function Before(samples: seq<Sample>, i: nat): Sample
    requires i <= |samples|
  {
    if i == 0 then [] else samples[i - 1]
  }

  /** suspects[i] is what the analysis of sample i suspected. */
  ghost predicate AnalysisAt(samples: seq<Sample>, suspects: seq<set<Value>>, n: nat, i: int) {
    0 <= i < |samples| == |suspects| ==>
      AreSuspects(suspects[i], samples[i], Before(samples, i), n)
  }

  ghost predicate IsRun(samples: seq<Sample>, suspects: seq<set<Value>>, n: nat) {
    && |samples| == |suspects|
    && forall i {:trigger AnalysisAt(samples, suspects, n, i)} :: AnalysisAt(samples, suspects, n, i)
  }

  /** The number of most recent analyses, without a break, in which v was suspected. */
  ghost function Streak(suspects: seq<set<Value>>, v: Value): nat {
    if suspects != [] && v in suspects[|suspects| - 1] then
      1 + Streak(suspects[..|suspects| - 1], v)
    else 0
  }

  // ---------- what suspicion means ----------

  /** e is the change of entry i of the current sample. */
  ghost predicate IsDelta(cur: Sample, prev: Sample, i: int, e: Entry) {
    && 0 <= i < |cur| && cur[i].value == e.value
    && CountOf(prev, e.value).Some?
    && e.count == ToInt32(cur[i].count - CountOf(prev, e.value).value)
  }

  lemma {:induction false} DeltaEntries(cur: Sample, prev: Sample, e: Entry)
    requires e in Deltas(cur, prev)
    ensures exists i :: IsDelta(cur, prev, i, e)
  {
    var front, l := cur[..|cur| - 1], cur[|cur| - 1];
    if e in DeltaOf(l, prev) {
      assert IsDelta(cur, prev, |cur| - 1, e);
    } else {
      DeltaEntries(front, prev, e);
      var i :| IsDelta(front, prev, i, e);
      assert IsDelta(cur, prev, i, e);
    }
  }

  /** Up to the first drop every delta is positive: each is at least half of the one before. */
  lemma {:induction false} PositiveBeforeDrop(d: seq<Entry>, k: nat, i: nat)
    requires i < k <= |d| && d[0].count > 0
    requires forall j: nat :: j < k ==> !IsDrop(d, j)
    ensures d[i].count > 0
  {
    if i > 0 {
      PositiveBeforeDrop(d, k, i - 1);
      assert !IsDrop(d, i);
    }
  }

  lemma CountOfEntry(s: Sample, i: nat)
    requires Distinct(s) && i < |s|
    ensures CountOf(s, s[i].value) == Some(s[i].count)
  {
    CountOfSpec(s, s[i].value);
  }

  /** v is in both samples and its count has grown. */
  predicate Grows(prev: Sample, cur: Sample, v: Value) {
    && CountOf(prev, v).Some? && CountOf(cur, v).Some?
    && CountOf(prev, v).value < CountOf(cur, v).value
  }

  lemma PositiveDeltaMeansGrowth(cur: Sample, prev: Sample, i: int, e: Entry)
    requires SampleOk(cur) && SampleOk(prev) && Distinct(cur)
    requires IsDelta(cur, prev, i, e) && e.count > 0
    ensures Grows(prev, cur, e.value)
  {
    CountOfEntry(cur, i);
    CountOfSpec(prev, e.value);
  }

  lemma SuspectedHasPositiveDelta(cur: Sample, prev: Sample, n: nat, v: Value)
    requires Suspected(cur, prev, n, v)
    ensures exists e: Entry :: e in Deltas(cur, prev) && e.value == v && e.count > 0
  {
    var deltas := Deltas(cur, prev);
    var d := RankedDeltas(cur, prev, n);
    var k: nat, i :| IsSuspectCount(d, k) && 0 <= i < k <= |d| && d[i].value == v;
    PositiveBeforeDrop(d, k, i);
    RankedIsPermutation(deltas);
    assert d[i] == Ranked(deltas)[i];
    assert d[i] in deltas;
  }

  /** A suspected value is in the current sample. */
  lemma SuspectedOccurs(cur: Sample, prev: Sample, n: nat, v: Value)
    requires Suspected(cur, prev, n, v)
    ensures Occurs(cur, v)
  {
    SuspectedHasPositiveDelta(cur, prev, n, v);
    var e: Entry :| e in Deltas(cur, prev) && e.value == v && e.count > 0;
    DeltaEntries(cur, prev, e);
    var i :| IsDelta(cur, prev, i, e);
    assert cur[i].value == v;
  }

  /** A suspected value was in the previous sample and its count has grown since. */
  lemma SuspectedMeansGrowth(cur: Sample, prev: Sample, n: nat, v: Value)
    requires SampleOk(cur) && SampleOk(prev) && Distinct(cur)
    requires Suspected(cur, prev, n, v)
    ensures Grows(prev, cur, v)
  {
    SuspectedHasPositiveDelta(cur, prev, n, v);
    var e: Entry :| e in Deltas(cur, prev) && e.value == v && e.count > 0;
    DeltaEntries(cur, prev, e);
    var i :| IsDelta(cur, prev, i, e);
    PositiveDeltaMeansGrowth(cur, prev, i, e);
  }

  ghost predicate SamplesOk(samples: seq<Sample>) {
    forall i :: 0 <= i < |samples| ==> SampleOk(samples[i]) && Distinct(samples[i])
  }

  /** v grew from sample i - 1 to sample i. */
  ghost predicate GrewAt(samples: seq<Sample>, i: int, v: Value) {
    0 < i < |samples| && Grows(samples[i - 1], samples[i], v)
  }

  /** v was in each of the last t + 1 samples, with a strictly increasing count. */
  ghost predicate GrewFor(samples: seq<Sample>, v: Value, t: nat) {
    forall i :: |samples| - t <= i < |samples| ==> GrewAt(samples, i, v)
  }

  lemma SuspectedAtMeansGrewAt(samples: seq<Sample>, suspects: seq<set<Value>>, n: nat, i: int, v: Value)
    requires SamplesOk(samples) && IsRun(samples, suspects, n)
    requires 0 <= i < |samples| && v in suspects[i]
    ensures GrewAt(samples, i, v)
  {
    assert AnalysisAt(samples, suspects, n, i);
    SuspectedMeansGrowth(samples[i], Before(samples, i), n, v);
  }

  /** The streak covers exactly the last analyses that suspected v. */
  lemma {:induction false} StreakSpec(suspects: seq<set<Value>>, v: Value)
    ensures Streak(suspects, v) <= |suspects|
    ensures forall i :: |suspects| - Streak(suspects, v) <= i < |suspects| ==> v in suspects[i]
    ensures Streak(suspects, v) < |suspects| ==> v !in suspects[|suspects| - 1 - Streak(suspects, v)]
  {
    if suspects != [] && v in suspects[|suspects| - 1] {
      var front := suspects[..|suspects| - 1];
      StreakSpec(front, v);
      assert forall i :: 0 <= i < |front| ==> suspects[i] == front[i];
    }
  }

  /** A value suspected in the last t analyses without a break was in each of the last t + 1
      samples, with a strictly increasing count. */
  lemma StreakMeansGrowth(samples: seq<Sample>, suspects: seq<set<Value>>, n: nat, v: Value)
    requires SamplesOk(samples) && IsRun(samples, suspects, n)
    ensures GrewFor(samples, v, Streak(suspects, v))
  {
    StreakSpec(suspects, v);
    forall i | |samples| - Streak(suspects, v) <= i < |samples| ensures GrewAt(samples, i, v) {
      SuspectedAtMeansGrewAt(samples, suspects, n, i, v);
    }
  }

  lemma OccursTwice(s: Sample, i: int, j: int)
    requires 0 <= i < j < |s| && s[i] == s[j]
    ensures multiset(s)[s[i]] >= 2
  {
    assert s == s[..i] + [s[i]] + s[i + 1..j] + [s[j]] + s[j + 1..];
  }

  lemma {:induction false} OccursOnce(s: Sample, e: Entry)
    requires Distinct(s)
    ensures multiset(s)[e] <= 1
  {
    if s != [] {
      OccursOnce(s[1..], e);
      assert s == [s[0]] + s[1..];
      if e == s[0] {
        assert e !in s[1..];
      }
    }
  }

  /** The values of a ranked list were added to it. */
  lemma RankedValues(s: Sample, n: nat, v: Value)
    requires Occurs(Top(Ranked(s), n), v)
    ensures Occurs(s, v)
  {
    RankedIsPermutation(s);
    var t := Top(Ranked(s), n);
    var i :| 0 <= i < |t| && t[i].value == v;
    assert t[i] == Ranked(s)[i];
    assert t[i] in s;
    var j :| 0 <= j < |s| && s[j] == t[i];
  }

  /** Ranking distinct small entries gives a sample of distinct small entries. */
  lemma RankedSampleOk(s: Sample, n: nat)
    requires SampleOk(s) && Distinct(s)
    ensures SampleOk(Top(Ranked(s), n)) && Distinct(Top(Ranked(s), n))
  {
    RankedIsPermutation(s);
    var r := Ranked(s);
    forall i | 0 <= i < |r| ensures 0 <= r[i].count < COUNT_LIMIT {
      assert r[i] in s;
    }
    forall i, j | 0 <= i < j < |r| ensures r[i].value != r[j].value {
      assert r[i] in s && r[j] in s;
      if r[i].value == r[j].value {
        var k :| 0 <= k < |s| && s[k] == r[i];
        var l :| 0 <= l < |s| && s[l] == r[j];
        assert k == l;
        OccursTwice(r, i, j);
        OccursOnce(s, r[i]);
      }
    }
  }

  // ---------- the histogram and the reports ----------

  /** The keys are the current suspects, and each score is the length of the current streak as
      a 32-bit count. */
  ghost predicate HistogramOk(h: map<Value, int>, suspects: seq<set<Value>>) {
    forall v :: (v in h <==> Streak(suspects, v) > 0)
      && (v in h ==> h[v] == Streak(suspects, v) % TWO_32)
  }

  function Increased(h: map<Value, int>, v: Value): int {
    if v in h then (h[v] + 1) % TWO_32 else 1
  }

  /** The histogram after an analysis that suspects vs. */
  ghost predicate Rescored(h: map<Value, int>, vs: set<Value>, h': map<Value, int>) {
    && h'.Keys == vs
    && forall v :: v in h' ==> h'[v] == Increased(h, v)
  }

  /** The values with at least the threshold score, in increasing order. */
  ghost predicate IsReport(leaks: seq<Value>, h: map<Value, int>, threshold: nat) {
    && (forall i, j :: 0 <= i < j < |leaks| ==> Less(leaks[i], leaks[j]))
    && (forall v :: v in leaks <==> v in h && h[v] >= threshold)
  }

  lemma RescoredIsStreak(h: map<Value, int>, vs: set<Value>, h': map<Value, int>,
                         suspects: seq<set<Value>>)
    requires HistogramOk(h, suspects) && Rescored(h, vs, h')
    ensures HistogramOk(h', suspects + [vs])
  {
    var all := suspects + [vs];
    assert all[..|all| - 1] == suspects && all[|all| - 1] == vs;
    forall v
      ensures (v in h' <==> Streak(all, v) > 0)
        && (v in h' ==> h'[v] == Streak(all, v) % TWO_32)
    {
      assert v in h <==> Streak(suspects, v) > 0;
    }
  }

  /** While there have been fewer than 2^32 samples, a value is reported exactly when its
      streak has reached the threshold, and then it has grown throughout. */
  lemma ReportedMeansStreak(leaks: seq<Value>, h: map<Value, int>, threshold: nat,
                            samples: seq<Sample>, suspects: seq<set<Value>>, n: nat, v: Value)
    requires HistogramOk(h, suspects) && IsReport(leaks, h, threshold)
    requires SamplesOk(samples) && IsRun(samples, suspects, n)
    requires |samples| < TWO_32 && threshold >= 1
    ensures v in leaks <==> Streak(suspects, v) >= threshold
    ensures v in leaks ==> GrewFor(samples, v, threshold)
  {
    StreakSpec(suspects, v);
    StreakMeansGrowth(samples, suspects, n, v);
    assert v in h <==> Streak(suspects, v) > 0;
  }

  lemma ExtendRun(samples: seq<Sample>, suspects: seq<set<Value>>, n: nat, s: Sample, vs: set<Value>)
    requires IsRun(samples, suspects, n)
    requires AreSuspects(vs, s, Before(samples, |samples|), n)
    ensures IsRun(samples + [s], suspects + [vs], n)
  {
    forall i ensures AnalysisAt(samples + [s], suspects + [vs], n, i) {
      if 0 <= i < |samples| {
        assert AnalysisAt(samples, suspects, n, i);
      }
    }
  }

  class LeakAnalyzer {
    const ranking_size: nat
    const score_threshold: nat
    const ranked_entries: RankedList
    const prev_ranked_entries: RankedList
    var suspected_histogram: map<Value, int>
    var suspected_leaks: seq<Value>
    ghost var samples: seq<Sample>          // every sample so far
    ghost var suspects: seq<set<Value>>     // what each analysis suspected

    ghost function Repr(): set<object> {
      {this, ranked_entries, prev_ranked_entries}
    }

    ghost predicate Valid()
      reads Repr()
    {
      && ranked_entries != prev_ranked_entries
      && prev_ranked_entries.entries == Before(samples, if samples == [] then 0 else |samples| - 1)
      && ranked_entries.entries == Before(samples, |samples|)
      && (forall i :: 0 <= i < |samples| ==> SampleOk(samples[i]))
      && IsRun(samples, suspects, ranking_size)
      && HistogramOk(suspected_histogram, suspects)
      && IsReport(suspected_leaks, suspected_histogram, score_threshold)
    }

    constructor (ranking_size: nat, num_suspicions_threshold: nat)
      ensures Valid() && fresh(Repr())
      ensures samples == [] && this.ranking_size == ranking_size
      ensures score_threshold == num_suspicions_threshold
    {
      this.ranking_size := ranking_size;
      score_threshold := num_suspicions_threshold;
      ranked_entries := new RankedList(ranking_size);
      prev_ranked_entries := new RankedList(ranking_size);
      suspected_histogram := map[];
      suspected_leaks := [];
      samples, suspects := [], [];
    }

    /** The count recorded for value in the previous sample. */
    method GetPreviousCountForValue(value: Value) returns (found: bool, count: int)
      ensures found == CountOf(prev_ranked_entries.entries, value).Some?
      ensures found ==> count == CountOf(prev_ranked_entries.entries, value).value
    {
      var entries := prev_ranked_entries.entries;
      found, count := false, 0;
      var i := 0;
      while i < |entries|
        invariant 0 <= i <= |entries|
        invariant CountOf(entries[i..], value) == CountOf(entries, value)
      {
        assert entries[i..][1..] == entries[i + 1..];
        if entries[i].value == value {
          return true, entries[i].count;
        }
        i := i + 1;
      }
    }

    /** After any run of samples, exactly the values whose streak has reached the threshold are
        reported, and each of them has grown from sample to sample all that time. */
    lemma ReportedValuesGrow(v: Value)
      requires Valid() && SamplesOk(samples) && |samples| < TWO_32 && score_threshold >= 1
      ensures v in suspected_leaks <==> Streak(suspects, v) >= score_threshold
      ensures v in suspected_leaks ==> GrewFor(samples, v, score_threshold)
    {
      ReportedMeansStreak(suspected_leaks, suspected_histogram, score_threshold,
                          samples, suspects, ranking_size, v);
    }

    /** Reports are in rising order, of sizes and of call stack addresses, each once. */
    lemma ReportsRise(i: int, j: int)
      requires Valid() && 0 <= i < j < |suspected_leaks|
      ensures var a, b := suspected_leaks[i], suspected_leaks[j];
        && (a.SizeValue? && b.SizeValue? ==> a.size < b.size)
        && (a.CallStackValue? && b.CallStackValue? ==> a.call_stack < b.call_stack)
        && (b.SizeValue? ==> a.SizeValue?)
    {
    }

    /** Reported values are in the last sample. */
    lemma ReportedValuesOccur(v: Value)
      requires Valid() && v in suspected_leaks
      ensures samples != []
      ensures Occurs(samples[|samples| - 1], v)
    {
      assert v in suspected_histogram && Streak(suspects, v) > 0;
      StreakSpec(suspects, v);
      var n := |samples| - 1;
      assert AnalysisAt(samples, suspects, ranking_size, n);
      SuspectedOccurs(samples[n], Before(samples, n), ranking_size, v);
    }

    /** Where the ranked deltas first fall by more than half. */
    static method FindDrop(d: seq<Entry>) returns (found_drop: bool, drop_position: nat)
      requires forall i :: 0 <= i < |d| ==> -COUNT_LIMIT < d[i].count < COUNT_LIMIT
      ensures IsSuspectCount(d, if found_drop then drop_position else 0)
      ensures found_drop ==> 0 < drop_position < |d|
    {
      found_drop, drop_position := false, |d|;
      if |d| > 1 {
        // If the first entry is not positive, no delta is: that is no suspicion of leaks.
        if d[0].count > 0 {
          var next := 1;
          while next < |d|
            invariant 1 <= next <= |d|
            invariant forall j: nat :: j < next ==> !IsDrop(d, j)
          {
            assert -INT_MAX - 1 <= d[next].count * 2 <= INT_MAX;  // no overflow
            if d[next - 1].count > d[next].count * 2 {
              assert IsDrop(d, next);
              return true, next;
            }
            next := next + 1;
          }
        }
      }
    }

    /** The values of the first drop_position entries. */
    static method CollectSuspects(d: seq<Entry>, drop_position: nat) returns (vs: set<Value>)
      requires drop_position <= |d|
      ensures forall v :: v in vs <==> exists i :: 0 <= i < drop_position && d[i].value == v
      ensures |vs| <= drop_position
    {
      vs := {};
      var i := 0;
      while i < drop_position
        invariant 0 <= i <= drop_position && |vs| <= i
        invariant forall v :: v in vs <==> exists k :: 0 <= k < i && d[k].value == v
      {
        vs := vs + {d[i].value};
        i := i + 1;
      }
    }

    /** Drop the scores of the values that are not suspected this time. */
    method ResetScores(vs: set<Value>)
      modifies this`suspected_histogram
      ensures suspected_histogram.Keys == old(suspected_histogram).Keys * vs
      ensures forall v :: v in suspected_histogram ==> suspected_histogram[v] == old(suspected_histogram)[v]
    {
      var rest := suspected_histogram.Keys;
      while rest != {}
        invariant rest <= old(suspected_histogram).Keys
        invariant forall v :: v in suspected_histogram <==>
          v in old(suspected_histogram) && (v in vs || v in rest)
        invariant forall v :: v in suspected_histogram ==>
          suspected_histogram[v] == old(suspected_histogram)[v]
      {
        var v :| v in rest;
        rest := rest - {v};
        if v !in vs {
          suspected_histogram := suspected_histogram - {v};
        }
      }
    }

    /** Increase the scores of the values that are suspected this time.  The cap on new entries
        never takes effect: there are fewer suspects than ranking_size. */
    method IncreaseScores(vs: set<Value>)
      requires suspected_histogram.Keys <= vs
      requires |vs| < ranking_size || vs == {}
      modifies this`suspected_histogram
      ensures Rescored(old(suspected_histogram), vs, suspected_histogram)
    {
      var rest := vs;
      while rest != {}
        invariant rest <= vs
        invariant old(suspected_histogram).Keys <= suspected_histogram.Keys
        invariant suspected_histogram.Keys <= vs && vs - rest <= suspected_histogram.Keys
        invariant forall v :: v in suspected_histogram ==>
          if v in rest then
            v in old(suspected_histogram) && suspected_histogram[v] == old(suspected_histogram)[v]
          else
            suspected_histogram[v] == Increased(old(suspected_histogram), v)
      {
        var v :| v in rest;
        rest := rest - {v};
        if v in suspected_histogram {
          suspected_histogram := suspected_histogram[v := (suspected_histogram[v] + 1) % TWO_32];
        } else {
          SmallerSubset(suspected_histogram.Keys, vs, v);
          assert |suspected_histogram| < ranking_size;
          if |suspected_histogram| < ranking_size {
            suspected_histogram := suspected_histogram[v := 1];
          }
        }
      }
    }

    /** Report the values with a high enough score, in increasing order.  The limit on the
        number of reports never takes effect. */
    method ReportLeaks()
      requires |suspected_histogram| <= ranking_size
      modifies this`suspected_leaks
      ensures IsReport(suspected_leaks, suspected_histogram, score_threshold)
    {
      suspected_leaks := [];
      var rest := suspected_histogram.Keys;
      while rest != {}
        invariant rest <= suspected_histogram.Keys
        invariant |suspected_leaks| + |rest| <= |suspected_histogram|
        invariant forall u, w :: u in suspected_histogram && u !in rest && w in rest ==> Less(u, w)
        invariant forall i, j :: 0 <= i < j < |suspected_leaks| ==> Less(suspected_leaks[i], suspected_leaks[j])
        invariant forall v :: v in suspected_leaks <==>
          v in suspected_histogram && v !in rest && suspected_histogram[v] >= score_threshold
      {
        assert |suspected_leaks| <= ranking_size;
        if |suspected_leaks| > ranking_size {
          break;
        }
        var v := LeastOf(rest);
        rest := rest - {v};
        if suspected_histogram[v] >= score_threshold {
          assert forall i :: 0 <= i < |suspected_leaks| ==> suspected_leaks[i] in suspected_leaks;
          suspected_leaks := suspected_leaks + [v];
        }
      }
    }

    /** Analyze the ranked deltas since the previous sample and update the suspicion scores. */
    method AnalyzeDeltas(ranked_deltas: seq<Entry>) returns (ghost vs: set<Value>)
      requires |ranked_deltas| <= ranking_size
      requires forall i :: 0 <= i < |ranked_deltas| ==> -COUNT_LIMIT < ranked_deltas[i].count < COUNT_LIMIT
      modifies this`suspected_histogram, this`suspected_leaks
      ensures SuspectsOf(vs, ranked_deltas)
      ensures Rescored(old(suspected_histogram), vs, suspected_histogram)
      ensures IsReport(suspected_leaks, suspected_histogram, score_threshold)
    {
      var found_drop, drop_position := FindDrop(ranked_deltas);
      var current_suspects := {};
      if found_drop {
        current_suspects := CollectSuspects(ranked_deltas, drop_position);
      }
      ResetScores(current_suspects);
      IncreaseScores(current_suspects);
      assert suspected_histogram.Keys == current_suspects;
      ReportLeaks();
      vs := current_suspects;
      assert IsSuspectCount(ranked_deltas, if found_drop then drop_position else 0);
    }

    /** Rank the changes since the previous sample. */
    method RankDeltas() returns (ranked_deltas: RankedList)
      requires SampleOk(ranked_entries.entries) && SampleOk(prev_ranked_entries.entries)
      ensures fresh(ranked_deltas)
      ensures ranked_deltas.entries
        == RankedDeltas(ranked_entries.entries, prev_ranked_entries.entries, ranking_size)
      ensures |ranked_deltas.entries| <= ranking_size
      ensures forall i :: 0 <= i < |ranked_deltas.entries| ==>
        -COUNT_LIMIT < ranked_deltas.entries[i].count < COUNT_LIMIT
    {
      ranked_deltas := new RankedList(ranking_size);
      var entries := ranked_entries.entries;
      var i := 0;
      while i < |entries|
        invariant 0 <= i <= |entries|
        invariant fresh(ranked_deltas) && ranked_deltas.Valid() && ranked_deltas.max_size == ranking_size
        invariant ranked_deltas.added == Deltas(entries[..i], prev_ranked_entries.entries)
        modifies ranked_deltas
      {
        assert entries[..i + 1][..i] == entries[..i] && entries[..i + 1][i] == entries[i];
        // A value that was not in the previous sample has no delta.
        var found, prev_count := GetPreviousCountForValue(entries[i].value);
        if found {
          ranked_deltas.Add(entries[i].value, ToInt32(entries[i].count - prev_count));
        }
        i := i + 1;
      }
      assert entries[..i] == entries;
      DeltasSmall(entries, prev_ranked_entries.entries, ranking_size);
    }

    /** Take in a ranked list, and analyze the change since the previous one. */
    method AddSample(ranked_list: RankedList)
      requires Valid() && ranked_list !in Repr()
      requires SampleOk(ranked_list.entries)
      modifies Repr(), ranked_list
      ensures Valid()
      ensures samples == old(samples) + [old(ranked_list.entries)]
      ensures suspects[..|old(suspects)|] == old(suspects)
    {
      prev_ranked_entries.MoveFrom(ranked_entries);
      ranked_entries.MoveFrom(ranked_list);
      ghost var cur := ranked_entries.entries;
      var ranked_deltas := RankDeltas();
      ghost var vs := AnalyzeDeltas(ranked_deltas.entries);
      AnalysisStep(samples, suspects, ranking_size, old(suspected_histogram), suspected_histogram, cur, vs);
      samples, suspects := samples + [cur], suspects + [vs];
    }
  }

  lemma AnalysisStep(samples: seq<Sample>, suspects: seq<set<Value>>, n: nat,
                     h: map<Value, int>, h': map<Value, int>, cur: Sample, vs: set<Value>)
    requires IsRun(samples, suspects, n) && HistogramOk(h, suspects)
    requires SuspectsOf(vs, RankedDeltas(cur, Before(samples, |samples|), n))
    requires Rescored(h, vs, h')
    ensures IsRun(samples + [cur], suspects + [vs], n)
    ensures HistogramOk(h', suspects + [vs])
  {
    SuspectsAreSuspected(vs, cur, Before(samples, |samples|), n);
    RescoredIsStreak(h, vs, h', suspects);
    ExtendRun(samples, suspects, n, cur, vs);
  }

  /** vs are the values before the first drop of d. */
  ghost predicate SuspectsOf(vs: set<Value>, d: seq<Entry>) {
    exists k: nat :: IsSuspectCount(d, k) && k <= |d|
      && forall v :: v in vs <==> exists i :: 0 <= i < k && d[i].value == v
  }

  lemma SuspectsAreSuspected(vs: set<Value>, cur: Sample, prev: Sample, n: nat)
    requires SuspectsOf(vs, RankedDeltas(cur, prev, n))
    ensures AreSuspects(vs, cur, prev, n)
  {
    var d := RankedDeltas(cur, prev, n);
    var k: nat :| IsSuspectCount(d, k) && k <= |d|
      && forall v :: v in vs <==> exists i :: 0 <= i < k && d[i].value == v;
    forall v ensures v in vs <==> Suspected(cur, prev, n, v) {
      if Suspected(cur, prev, n, v) {
        var l: nat, i :| IsSuspectCount(d, l) && 0 <= i < l <= |d| && d[i].value == v;
        SuspectCountUnique(d, k, l);
      }
    }
  }

  lemma SuspectCountUnique(d: seq<Entry>, k: nat, l: nat)
    requires IsSuspectCount(d, k) && IsSuspectCount(d, l)
    ensures k == l
  {
  }

  /** Differences of small counts are exact, and small themselves. */
  lemma DeltaSmall(cur: Sample, prev: Sample, e: Entry)
    requires SampleOk(cur) && SampleOk(prev) && e in Deltas(cur, prev)
    ensures -COUNT_LIMIT < e.count < COUNT_LIMIT
  {
    DeltaEntries(cur, prev, e);
    var i :| IsDelta(cur, prev, i, e);
    CountOfSpec(prev, e.value);
    assert 0 <= CountOf(prev, e.value).value < COUNT_LIMIT;
    ToInt32Exact(cur[i].count - CountOf(prev, e.value).value);
  }

  lemma ToInt32Exact(n: int)
    requires -INT_MAX - 1 <= n <= INT_MAX
    ensures ToInt32(n) == n
  {
  }

  lemma DeltasSmall(cur: Sample, prev: Sample, n: nat)
    requires SampleOk(cur) && SampleOk(prev)
    ensures var d := RankedDeltas(cur, prev, n);
      |d| <= n && forall i :: 0 <= i < |d| ==> -COUNT_LIMIT < d[i].count < COUNT_LIMIT
  {
    var deltas := Deltas(cur, prev);
    var d := RankedDeltas(cur, prev, n);
    RankedIsPermutation(deltas);
    forall i | 0 <= i < |d| ensures -COUNT_LIMIT < d[i].count < COUNT_LIMIT {
      assert d[i] == Ranked(deltas)[i];
      DeltaSmall(cur, prev, d[i]);
    }
  }

  /** The first value in the order, as iteration over a std::map or std::set yields it. */
  method LeastOf(s: set<Value>) returns (v: Value)
    requires s != {}
    ensures v in s && forall w :: w in s && w != v ==> Less(v, w)
  {
    v :| v in s;
    var rest := s - {v};
    while rest != {}
      invariant rest <= s && v in s && v !in rest
      invariant forall w :: w in s && w !in rest && w != v ==> Less(v, w)
    {
      var w :| w in rest;
      rest := rest - {w};
      if Less(w, v) {
        v := w;
      }
    }
  }

  lemma SmallerSubset(s: set<Value>, t: set<Value>, v: Value)
    requires s <= t && v in t && v !in s
    ensures |s| < |t|
  {
    SubsetSize(s, t - {v});
  }
}
