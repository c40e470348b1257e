/**
 Outstanding allocations by what was passed when they were recorded, instead of by call stack
 object (leak_detector_impl.cc:125-170): counting by pointer is counting by contents.
 */
module LeakTraces {
  import opened CallStackManagers
  import opened LeakCounts

  /** What was passed for an allocation, and whether its call stack was kept. */
  datatype Trace = Trace(size: nat, stack: seq<nat>, kept: bool)

  /** The outstanding allocations, as in Outstanding. */
  datatype Traces = Traces(live: map<nat, Trace>, lost: seq<Trace>) {
    ghost function Alloc(a: nat, t: Trace): Traces {
      if a in live then Traces(live, lost + [t]) else Traces(live[a := t], lost)
    }

    ghost function Free(a: nat): Traces {
      Traces(live - {a}, lost)
    }

    /** The number of outstanding allocations of slot i recorded with this call stack. */
    ghost function WithContents(i: int, stack: seq<nat>): nat {
      |LiveContents(live, i, stack)| + LostContents(lost, i, stack)
    }
  }

  predicate Carries(t: Trace, i: int, stack: seq<nat>) {
    t.kept && SizeToIndex(t.size) == i && t.stack == stack
  }

  ghost function LiveContents(m: map<nat, Trace>, i: int, stack: seq<nat>): set<nat> {
    set a | a in m && Carries(m[a], i, stack)
  }

  function LostContents(lost: seq<Trace>, i: int, stack: seq<nat>): nat {
    if lost == [] then 0
    else LostContents(lost[..|lost| - 1], i, stack) + if Carries(lost[|lost| - 1], i, stack) then 1 else 0
  }

  /** The record of an allocation points to the object with the contents that were passed. */
  ghost predicate IsTraceOf(info: AllocInfo, t: Trace, objects: map<nat, CallStack>) {
    && info.size == t.size && (t.kept <==> info.call_stack != 0)
    && (t.kept ==> info.call_stack in objects && objects[info.call_stack].stack == t.stack)
  }

  ghost predicate TracesAgree(o: Outstanding, ts: Traces, objects: map<nat, CallStack>) {
    && o.live.Keys == ts.live.Keys && |o.lost| == |ts.lost|
    && (forall a :: a in o.live ==> IsTraceOf(o.live[a], ts.live[a], objects))
    && (forall k :: 0 <= k < |o.lost| ==> IsTraceOf(o.lost[k], ts.lost[k], objects))
  }

  /** No object is lost or changed. */
  ghost predicate ObjectsKept(objects: map<nat, CallStack>, objects': map<nat, CallStack>) {
    forall c :: c in objects ==> c in objects' && objects'[c] == objects[c]
  }

  lemma AllocTraces(o: Outstanding, ts: Traces, objects: map<nat, CallStack>, objects': map<nat, CallStack>,
                    a: nat, info: AllocInfo, t: Trace)
    requires TracesAgree(o, ts, objects) && ObjectsKept(objects, objects') && IsTraceOf(info, t, objects')
    ensures TracesAgree(o.Alloc(a, info), ts.Alloc(a, t), objects')
  {
  }

  lemma FreeTraces(o: Outstanding, ts: Traces, objects: map<nat, CallStack>, a: nat)
    requires TracesAgree(o, ts, objects)
    ensures TracesAgree(o.Free(a), ts.Free(a), objects)
  {
  }

  lemma PointerMeansContents(info: AllocInfo, t: Trace, objects: map<nat, CallStack>, hashOf: seq<nat> -> nat,
                             i: int, c: nat)
    requires Interned(objects, hashOf) && IsTraceOf(info, t, objects) && c in objects
    ensures Carries(t, i, objects[c].stack) <==> SizeToIndex(info.size) == i && info.call_stack == c
  {
  }

  lemma {:induction false} LostByContents(lost: seq<AllocInfo>, traces: seq<Trace>, objects: map<nat, CallStack>,
                                          hashOf: seq<nat> -> nat, i: int, c: nat)
    requires Interned(objects, hashOf) && c in objects && |lost| == |traces|
    requires forall k :: 0 <= k < |lost| ==> IsTraceOf(lost[k], traces[k], objects)
    ensures LostWith(lost, i, c) == LostContents(traces, i, objects[c].stack)
  {
    if lost != [] {
      var n := |lost| - 1;
      LostByContents(lost[..n], traces[..n], objects, hashOf, i, c);
      PointerMeansContents(lost[n], traces[n], objects, hashOf, i, c);
    }
  }

  /** As many outstanding allocations carry object c as were recorded with the contents of c. */
  lemma CountByContents(o: Outstanding, ts: Traces, objects: map<nat, CallStack>, hashOf: seq<nat> -> nat,
                        i: int, c: nat)
    requires Interned(objects, hashOf) && TracesAgree(o, ts, objects) && c in objects
    ensures o.WithStack(i, c) == ts.WithContents(i, objects[c].stack)
  {
    LostByContents(o.lost, ts.lost, objects, hashOf, i, c);
    forall a | a in o.live
      ensures a in LiveWith(o.live, i, c) <==> a in LiveContents(ts.live, i, objects[c].stack)
    {
      PointerMeansContents(o.live[a], ts.live[a], objects, hashOf, i, c);
    }
    assert LiveWith(o.live, i, c) == LiveContents(ts.live, i, objects[c].stack);
  }

  /** Contents that an outstanding allocation was recorded with have an object. */
  lemma ContentsHaveObject(o: Outstanding, ts: Traces, objects: map<nat, CallStack>, i: int, stack: seq<nat>)
    requires TracesAgree(o, ts, objects) && ts.WithContents(i, stack) > 0
    ensures exists c :: c in objects && objects[c].stack == stack
  {
    if LostContents(ts.lost, i, stack) > 0 {
      var k := LostCarrier(ts.lost, i, stack);
      assert o.lost[k].call_stack in objects;
    } else {
      var a :| a in LiveContents(ts.live, i, stack);
      assert o.live[a].call_stack in objects;
    }
  }

  lemma {:induction false} LostCarrier(lost: seq<Trace>, i: int, stack: seq<nat>) returns (k: nat)
    requires LostContents(lost, i, stack) > 0
    ensures k < |lost| && Carries(lost[k], i, stack)
  {
    k := |lost| - 1;
    if !Carries(lost[k], i, stack) {
      k := LostCarrier(lost[..k], i, stack);
    }
  }
}
