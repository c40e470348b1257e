/**
 Which values an analysis suspects, said of the rises between two samples alone, without sorting
 them (leak_analyzer.cc:22-38, :124-199).
 */
module LeakSuspects {
  import opened IntSets
  import opened RankedLists
  import opened LeakAnalyzers

  /** rises has every value that is in both samples, with the difference of its counts. */
  ghost predicate AreRises(rises: map<Value, int>, prev: Sample, cur: Sample) {
    && (forall v :: v in rises <==> Occurs(prev, v) && Occurs(cur, v))
    && (forall i, j :: 0 <= i < |cur| && 0 <= j < |prev| && cur[i].value == prev[j].value ==>
          cur[i].value in rises && rises[cur[i].value] == cur[i].count - prev[j].count)
  }

  ghost function Above(rises: map<Value, int>, c: int): set<Value> {
    set u | u in rises && rises[u] > c
  }

  /** No value rose more than w, but at most twice as much. */
  ghost predicate Gap(rises: map<Value, int>, w: Value)
    requires w in rises
  {
    forall u :: u in Above(rises, rises[w]) ==> rises[u] > 2 * rises[w]
  }

  /** v rose, there is a gap somewhere below it, at one of the first n values, and none from v
      up. */
  ghost predicate StandsOut(rises: map<Value, int>, n: nat, v: Value) {
    && v in rises && rises[v] > 0
    && (exists w :: w in rises && rises[w] < rises[v] && Gap(rises, w) && |Above(rises, rises[w])| < n)
    && (forall w :: w in rises && rises[w] >= rises[v] && Above(rises, rises[w]) != {} ==> !Gap(rises, w))
  }

  // ---------- the deltas are the rises ----------

  lemma {:induction false} DeltaPresent(cur: Sample, prev: Sample, i: nat)
    requires i < |cur| && CountOf(prev, cur[i].value).Some?
    ensures Entry(cur[i].value, ToInt32(cur[i].count - CountOf(prev, cur[i].value).value)) in Deltas(cur, prev)
  {
    if i < |cur| - 1 {
      DeltaPresent(cur[..|cur| - 1], prev, i);
    }
  }

  lemma {:induction false} DeltasDistinct(cur: Sample, prev: Sample)
    requires Distinct(cur)
    ensures Distinct(Deltas(cur, prev))
  {
    if cur != [] {
      var front, l := cur[..|cur| - 1], cur[|cur| - 1];
      DeltasDistinct(front, prev);
      forall e | e in Deltas(front, prev) ensures e.value != l.value {
        DeltaEntries(front, prev, e);
        var i :| IsDelta(front, prev, i, e);
      }
      var d := Deltas(front, prev);
      forall i | 0 <= i < |d| ensures d[i].value != l.value {
        assert d[i] in d;
      }
    }
  }

  /** s has every value of rises once, with its rise, and nothing else. */
  ghost predicate ListsRises(s: seq<Entry>, rises: map<Value, int>) {
    && Distinct(s)
    && (forall i :: 0 <= i < |s| ==> s[i].value in rises && rises[s[i].value] == s[i].count)
    && (forall v :: v in rises ==> Entry(v, rises[v]) in s)
  }

  /** The deltas have exactly one entry for each value that is in both samples, with the difference
      of its counts. */
  lemma DeltasAreRises(cur: Sample, prev: Sample, rises: map<Value, int>)
    requires SampleOk(cur) && SampleOk(prev) && Distinct(cur) && AreRises(rises, prev, cur)
    ensures ListsRises(Deltas(cur, prev), rises)
  {
    hide AreRises;
    hide SampleOk;
    var d := Deltas(cur, prev);
    DeltasDistinct(cur, prev);
    forall i | 0 <= i < |d| ensures d[i].value in rises && rises[d[i].value] == d[i].count {
      DeltaEntries(cur, prev, d[i]);
      var k :| IsDelta(cur, prev, k, d[i]);
      RiseOf(cur, prev, rises, k);
    }
    forall v | v in rises ensures Entry(v, rises[v]) in d {
      var k := InBoth(cur, prev, rises, v);
      RiseOf(cur, prev, rises, k);
      DeltaPresent(cur, prev, k);
    }
  }

  lemma InBoth(cur: Sample, prev: Sample, rises: map<Value, int>, v: Value) returns (k: nat)
    requires AreRises(rises, prev, cur) && v in rises
    ensures k < |cur| && cur[k].value == v && CountOf(prev, v).Some?
  {
    var i :| 0 <= i < |cur| && cur[i].value == v;
    var j :| 0 <= j < |prev| && prev[j].value == v;
    CountOfSpec(prev, v);
    k := i;
  }

  lemma RiseOf(cur: Sample, prev: Sample, rises: map<Value, int>, k: int)
    requires SampleOk(cur) && SampleOk(prev) && AreRises(rises, prev, cur)
    requires 0 <= k < |cur| && CountOf(prev, cur[k].value).Some?
    ensures cur[k].value in rises
    ensures rises[cur[k].value] == ToInt32(cur[k].count - CountOf(prev, cur[k].value).value)
  {
    CountOfSpec(prev, cur[k].value);
    ToInt32Exact(cur[k].count - CountOf(prev, cur[k].value).value);
  }

  lemma RankedRises(d: seq<Entry>, rises: map<Value, int>)
    requires ListsRises(d, rises)
    ensures ListsRises(Ranked(d), rises) && Descending(Ranked(d))
  {
    RankedIsPermutation(d);
    var f := Ranked(d);
    forall i | 0 <= i < |f| ensures f[i] in d {}
    forall i, j | 0 <= i < j < |f| ensures f[i].value != f[j].value {
      if f[i].value == f[j].value {
        assert f[i] in d && f[j] in d;
        OccursTwice(f, i, j);
        OccursOnce(d, f[i]);
      }
    }
  }

  // ---------- positions in the ranking ----------

  lemma {:induction false} DistinctValues(s: seq<Entry>)
    requires Distinct(s)
    ensures |set i | 0 <= i < |s| :: s[i].value| == |s|
  {
    if s != [] {
      var front, l := s[..|s| - 1], s[|s| - 1];
      DistinctValues(front);
      assert (set i | 0 <= i < |s| :: s[i].value) == (set i | 0 <= i < |front| :: front[i].value) + {l.value};
    }
  }

  /** If exactly the first p entries are above c, p values are. */
  lemma CountAbove(f: seq<Entry>, rises: map<Value, int>, c: int, p: nat)
    requires ListsRises(f, rises) && p <= |f|
    requires forall i :: 0 <= i < |f| ==> (f[i].count > c <==> i < p)
    ensures |Above(rises, c)| == p
  {
    var front := f[..p];
    DistinctValues(front);
    forall v ensures v in Above(rises, c) <==> v in set i | 0 <= i < |front| :: front[i].value {
      if v in Above(rises, c) {
        var i := PositionOf(f, rises, v);
        assert front[i].value == v;
      }
    }
    assert Above(rises, c) == set i | 0 <= i < |front| :: front[i].value;
  }

  lemma PositionOf(f: seq<Entry>, rises: map<Value, int>, v: Value) returns (i: nat)
    requires ListsRises(f, rises) && v in rises
    ensures i < |f| && f[i] == Entry(v, rises[v])
  {
    var k :| 0 <= k < |f| && f[k] == Entry(v, rises[v]);
    i := k;
  }

  /** The first position of the count at position i. */
  lemma {:induction false} FirstOfCount(f: seq<Entry>, i: nat) returns (p: nat)
    requires Descending(f) && i < |f|
    ensures p <= i && f[p].count == f[i].count
    ensures forall j :: 0 <= j < |f| ==> (f[j].count > f[i].count <==> j < p)
  {
    p := i;
    while p > 0 && f[p - 1].count == f[i].count
      invariant p <= i && f[p].count == f[i].count
    {
      p := p - 1;
    }
  }

  lemma {:induction false} FirstDrop(d: seq<Entry>, k: nat) returns (p: nat)
    requires IsDrop(d, k)
    ensures p <= k && IsDrop(d, p) && forall j: nat :: j < p ==> !IsDrop(d, j)
  {
    p := 0;
    while !IsDrop(d, p)
      invariant p <= k && forall j: nat :: j < p ==> !IsDrop(d, j)
      decreases k - p
    {
      p := p + 1;
    }
  }

  // ---------- suspected means standing out ----------

  /** v is among the first k entries of the top n, which come before the first drop. */
  ghost predicate BeforeDrop(f: seq<Entry>, n: nat, v: Value, k: nat, i: nat) {
    var d := Top(f, n);
    IsSuspectCount(d, k) && i < k <= |d| && d[i].value == v
  }

  lemma BeforeDropStandsOut(f: seq<Entry>, rises: map<Value, int>, n: nat, v: Value, k: nat, i: nat)
    requires ListsRises(f, rises) && Descending(f) && BeforeDrop(f, n, v, k, i)
    ensures StandsOut(rises, n, v)
  {
    var d := Top(f, n);
    PositiveBeforeDrop(d, k, i);
    assert IsDrop(d, k) && f[k - 1].count > f[k].count * 2 && f[i].value == v;
    PositiveBeforeDrop(d, k, k - 1);
    var w := f[k].value;
    forall j | 0 <= j < |f| ensures f[j].count > f[k].count <==> j < k {}
    CountAbove(f, rises, f[k].count, k);
    forall u | u in Above(rises, rises[w]) ensures rises[u] > 2 * rises[w] {
      var p := PositionOf(f, rises, u);
    }
    assert Gap(rises, w);
    forall y | y in rises && rises[y] >= rises[v] && Above(rises, rises[y]) != {} ensures !Gap(rises, y) {
      NoGapAbove(f, rises, n, v, k, i, y);
    }
  }

  lemma NoGapAbove(f: seq<Entry>, rises: map<Value, int>, n: nat, v: Value, k: nat, i: nat, y: Value)
    requires ListsRises(f, rises) && Descending(f) && BeforeDrop(f, n, v, k, i)
    requires y in rises && rises[y] >= rises[v] && Above(rises, rises[y]) != {}
    ensures !Gap(rises, y)
  {
    var d := Top(f, n);
    PositiveBeforeDrop(d, k, k - 1);
    assert IsDrop(d, k) && f[k - 1].count > f[k].count * 2;
    var q := PositionOf(f, rises, y);
    var p := FirstOfCount(f, q);
    var z :| z in Above(rises, rises[y]);
    var r := PositionOf(f, rises, z);
    assert f[i].count == rises[v] && f[i].count >= f[k - 1].count > f[k].count;
    assert q < k && 0 < p;
    assert !IsDrop(d, p);
    assert f[p - 1].value in Above(rises, rises[y]) && rises[f[p - 1].value] <= 2 * rises[y];
  }

  /** A gap below some value, at one of the first n, is a drop. */
  lemma GapIsDrop(f: seq<Entry>, rises: map<Value, int>, n: nat, w: Value) returns (p: nat)
    requires ListsRises(f, rises) && Descending(f) && w in rises && Gap(rises, w)
    requires |Above(rises, rises[w])| < n && Above(rises, rises[w]) != {}
    ensures IsDrop(Top(f, n), p)
  {
    var q := PositionOf(f, rises, w);
    p := FirstOfCount(f, q);
    CountAbove(f, rises, rises[w], p);
    if p > 0 {
      assert f[p - 1].count > rises[w];
      assert f[p - 1].value in Above(rises, rises[w]);
    }
  }

  lemma FirstIsPositive(f: seq<Entry>, rises: map<Value, int>, n: nat, v: Value, k: nat)
    requires ListsRises(f, rises) && Descending(f) && v in rises && rises[v] > 0 && IsDrop(Top(f, n), k)
    ensures Top(f, n)[0].count > 0
  {
    var i := PositionOf(f, rises, v);
  }

  lemma StandsOutBeforeDrop(f: seq<Entry>, rises: map<Value, int>, n: nat, v: Value) returns (k: nat, i: nat)
    requires ListsRises(f, rises) && Descending(f) && StandsOut(rises, n, v)
    ensures BeforeDrop(f, n, v, k, i)
  {
    var w :| w in rises && rises[w] < rises[v] && Gap(rises, w) && |Above(rises, rises[w])| < n;
    assert v in Above(rises, rises[w]);
    i := PositionOf(f, rises, v);
    hide ListsRises;
    hide Descending;
    hide Gap;
    var p := GapIsDrop(f, rises, n, w);
    k := FirstDrop(Top(f, n), p);
    FirstIsPositive(f, rises, n, v, k);
    DropsBelow(f, rises, n, v, k, i);
  }

  /** No drop is at or above a value that stands out. */
  lemma DropsBelow(f: seq<Entry>, rises: map<Value, int>, n: nat, v: Value, k: nat, i: nat)
    requires ListsRises(f, rises) && Descending(f) && StandsOut(rises, n, v)
    requires IsDrop(Top(f, n), k) && i < |f| && f[i] == Entry(v, rises[v])
    ensures i < k
  {
    assert rises[v] > 0;
    hide ListsRises;
    hide Descending;
    hide StandsOut;
    if k <= i {
      StaysAbove(f, rises, v, i, k);
      var y := f[k].value;
      assert f[k - 1].count > 2 * f[k].count && f[k - 1].value in Above(rises, rises[y]);
      var u := NoGapWitness(rises, n, v, y);
      var r := PositionOf(f, rises, u);
      EarlierIsHigher(f, k, r);
    }
  }

  lemma StaysAbove(f: seq<Entry>, rises: map<Value, int>, v: Value, i: nat, k: nat)
    requires ListsRises(f, rises) && Descending(f) && 0 < k <= i < |f|
    requires v in rises && f[i] == Entry(v, rises[v])
    ensures f[k].count >= rises[v]
    ensures f[k].value in rises && rises[f[k].value] == f[k].count
    ensures f[k - 1].value in rises && rises[f[k - 1].value] == f[k - 1].count
  {
  }

  lemma NoGapWitness(rises: map<Value, int>, n: nat, v: Value, y: Value) returns (u: Value)
    requires StandsOut(rises, n, v) && y in rises && rises[y] >= rises[v] && Above(rises, rises[y]) != {}
    ensures u in rises && rises[y] < rises[u] <= 2 * rises[y]
  {
    assert !Gap(rises, y);
    u :| u in Above(rises, rises[y]) && rises[u] <= 2 * rises[y];
  }

  lemma EarlierIsHigher(f: seq<Entry>, k: nat, r: nat)
    requires Descending(f) && 0 < k < |f| && r < |f| && f[r].count > f[k].count
    ensures f[r].count >= f[k - 1].count
  {
  }

  /** What an analysis suspects: exactly the values that stand out. */
  lemma SuspectedStandsOut(cur: Sample, prev: Sample, n: nat, v: Value, rises: map<Value, int>)
    requires SampleOk(cur) && SampleOk(prev) && Distinct(cur) && AreRises(rises, prev, cur)
    ensures Suspected(cur, prev, n, v) <==> StandsOut(rises, n, v)
  {
    DeltasAreRises(cur, prev, rises);
    RankedRises(Deltas(cur, prev), rises);
    hide AreRises;
    hide ListsRises;
    hide StandsOut;
    hide BeforeDrop;
    hide Suspected;
    var f := Ranked(Deltas(cur, prev));
    if Suspected(cur, prev, n, v) {
      var k, i := SuspectedIsBefore(cur, prev, n, v);
      BeforeDropStandsOut(f, rises, n, v, k, i);
    } else if StandsOut(rises, n, v) {
      var k, i := StandsOutBeforeDrop(f, rises, n, v);
      BeforeIsSuspected(cur, prev, n, v, k, i);
    }
  }

  lemma SuspectedIsBefore(cur: Sample, prev: Sample, n: nat, v: Value) returns (k: nat, i: nat)
    requires Suspected(cur, prev, n, v)
    ensures BeforeDrop(Ranked(Deltas(cur, prev)), n, v, k, i)
  {
    var d := RankedDeltas(cur, prev, n);
    var l: nat, j :| IsSuspectCount(d, l) && 0 <= j < l <= |d| && d[j].value == v;
    k, i := l, j;
  }

  lemma BeforeIsSuspected(cur: Sample, prev: Sample, n: nat, v: Value, k: nat, i: nat)
    requires BeforeDrop(Ranked(Deltas(cur, prev)), n, v, k, i)
    ensures Suspected(cur, prev, n, v)
  {
    var d := RankedDeltas(cur, prev, n);
    assert IsSuspectCount(d, k) && 0 <= i < k <= |d| && d[i].value == v;
  }

  // ---------- what is reported ----------

  ghost predicate StoodOut(prev: Sample, cur: Sample, n: nat, v: Value) {
    exists rises: map<Value, int> :: AreRises(rises, prev, cur) && StandsOut(rises, n, v)
  }

  lemma RisesExist(prev: Sample, cur: Sample) returns (rises: map<Value, int>)
    requires Distinct(cur) && Distinct(prev)
    ensures AreRises(rises, prev, cur)
  {
    rises := map[];
    var k := 0;
    while k < |cur|
      invariant k <= |cur|
      invariant forall v :: v in rises <==> Occurs(prev, v) && exists i :: 0 <= i < k && cur[i].value == v
      invariant forall i, j :: 0 <= i < k && 0 <= j < |prev| && cur[i].value == prev[j].value ==>
        cur[i].value in rises && rises[cur[i].value] == cur[i].count - prev[j].count
    {
      if j :| 0 <= j < |prev| && prev[j].value == cur[k].value {
        rises := rises[cur[k].value := cur[k].count - prev[j].count];
      }
      k := k + 1;
    }
  }

  lemma SuspectedStoodOut(cur: Sample, prev: Sample, n: nat, v: Value)
    requires SampleOk(cur) && SampleOk(prev) && Distinct(cur) && Distinct(prev)
    ensures Suspected(cur, prev, n, v) <==> StoodOut(prev, cur, n, v)
  {
    hide Suspected;
    hide StandsOut;
    hide AreRises;
    var rises := RisesExist(prev, cur);
    SuspectedStandsOut(cur, prev, n, v, rises);
    if StoodOut(prev, cur, n, v) {
      var others: map<Value, int> :| AreRises(others, prev, cur) && StandsOut(others, n, v);
      SuspectedStandsOut(cur, prev, n, v, others);
    }
  }

  ghost predicate StoodOutAt(samples: seq<Sample>, n: nat, v: Value, i: int) {
    0 < i < |samples| && StoodOut(samples[i - 1], samples[i], n, v)
  }

  /** v stood out at each of the last t samples, each compared with the one before. */
  ghost predicate StoodOutFor(samples: seq<Sample>, n: nat, v: Value, t: nat) {
    forall i :: |samples| - t <= i < |samples| ==> StoodOutAt(samples, n, v, i)
  }

  lemma SuspectStoodOut(samples: seq<Sample>, suspects: seq<set<Value>>, n: nat, v: Value, i: int)
    requires SamplesOk(samples) && IsRun(samples, suspects, n) && 0 <= i < |samples|
    ensures v in suspects[i] <==> StoodOutAt(samples, n, v, i)
  {
    assert AnalysisAt(samples, suspects, n, i);
    SuspectedStoodOut(samples[i], Before(samples, i), n, v);
  }

  lemma StreakStoodOut(samples: seq<Sample>, suspects: seq<set<Value>>, n: nat, v: Value, t: nat)
    requires SamplesOk(samples) && IsRun(samples, suspects, n) && t >= 1
    ensures Streak(suspects, v) >= t <==> StoodOutFor(samples, n, v, t)
  {
    StreakSpec(suspects, v);
    if Streak(suspects, v) >= t {
      forall i | |samples| - t <= i < |samples| ensures StoodOutAt(samples, n, v, i) {
        SuspectStoodOut(samples, suspects, n, v, i);
      }
    } else {
      var i := |samples| - 1 - Streak(suspects, v);
      if i >= 0 {
        SuspectStoodOut(samples, suspects, n, v, i);
      }
      assert !StoodOutAt(samples, n, v, i);
    }
  }

  /** A value is reported exactly if it stood out at each of the last analyses, as many as the
      threshold says. */
  lemma ReportedStoodOut(a: LeakAnalyzer, v: Value)
    requires a.Valid() && SamplesOk(a.samples) && |a.samples| < TWO_32 && a.score_threshold >= 1
    ensures v in a.suspected_leaks <==> StoodOutFor(a.samples, a.ranking_size, v, a.score_threshold)
  {
    a.ReportedValuesGrow(v);
    StreakStoodOut(a.samples, a.suspects, a.ranking_size, v, a.score_threshold);
  }

  /** A value that rose more than twice as much as every other one stands out, if there is another
      one and room for two. */
  lemma RisesAlone(rises: map<Value, int>, n: nat, v: Value, other: Value)
    requires v in rises && rises[v] > 0 && other in rises && other != v && n >= 2
    requires forall w :: w in rises && w != v ==> rises[v] > 2 * rises[w]
    ensures StandsOut(rises, n, v)
  {
    var w := Highest(rises, v, other);
    assert Above(rises, rises[w]) == {v};
    assert Gap(rises, w);
    assert forall y :: y in rises && rises[y] >= rises[v] ==> y == v;
    assert Above(rises, rises[v]) == {};
  }

  lemma {:induction false} Highest(rises: map<Value, int>, v: Value, other: Value) returns (w: Value)
    requires other in rises && other != v
    ensures w in rises && w != v && forall u :: u in rises && u != v ==> rises[u] <= rises[w]
    decreases |Above(rises, rises[other])|
  {
    if u :| u in rises && u != v && rises[u] > rises[other] {
      var a, b := Above(rises, rises[u]), Above(rises, rises[other]);
      assert u in b && u !in a;
      SubsetSize(a, b - {u});
      w := Highest(rises, v, u);
    } else {
      w := other;
    }
  }
}
