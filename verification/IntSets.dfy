/** Facts about sets that the solver needs to be told. */
module IntSets {

  lemma NoMembers(s: set<int>)
    requires forall b :: b !in s
    ensures s == {}
  {
    forall b: int ensures b !in s {}
  }

  lemma Subset(s: set<int>, t: set<int>)
    requires forall b :: b in s ==> b in t
    ensures s <= t
  {
    forall b: int ensures b in s ==> b in t {}
  }

  lemma {:induction false} SubsetSize<T>(s: set<T>, t: set<T>)
    requires s <= t
    ensures |s| <= |t|
  {
    if s != {} {
      var v :| v in s;
      SubsetSize(s - {v}, t - {v});
    }
  }
}
