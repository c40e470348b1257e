/**
 Interning of call stacks (call_stack_manager.cc).  A call stack object is known by its
 address; the manager's table maps the address of each object it owns to its contents.  The
 hash function is a parameter: nothing here depends on its having no collisions.
 */
module CallStackManagers {

  datatype CallStack = CallStack(depth: nat, stack: seq<nat>, hash: nat)

  /** Two call stacks are equal if their contents are. */
  predicate PointerEqual(c1: CallStack, c2: CallStack) {
    c1.depth == c2.depth && c1.stack == c2.stack
  }

  /** Every object describes its stack, and no stack has two objects. */
  ghost predicate Interned(objects: map<nat, CallStack>, hashOf: seq<nat> -> nat) {
    && 0 !in objects
    && (forall p :: p in objects ==>
          objects[p].depth == |objects[p].stack| && objects[p].hash == hashOf(objects[p].stack))
    && (forall p, q :: p in objects && q in objects && objects[p].stack == objects[q].stack ==> p == q)
  }

  class CallStackManager {
    var call_stacks: map<nat, CallStack>
    const hashOf: seq<nat> -> nat

    ghost predicate Valid()
      reads this
    {
      Interned(call_stacks, hashOf)
    }

    constructor (hashOf: seq<nat> -> nat)
      ensures Valid() && call_stacks == map[]
    {
      call_stacks, this.hashOf := map[], hashOf;
    }

    /** The lookup of the hash table: first by stored hash, then by contents. */
    method Find(temp: CallStack) returns (p: nat)
      ensures p == 0 || p in call_stacks
      ensures p != 0 ==> call_stacks[p].hash == temp.hash && PointerEqual(call_stacks[p], temp)
      ensures p == 0 ==> forall q :: q in call_stacks && q != 0 ==>
        !(call_stacks[q].hash == temp.hash && PointerEqual(call_stacks[q], temp))
    {
      p := 0;
      var rest := call_stacks.Keys - {0};
      while rest != {}
        invariant rest <= call_stacks.Keys && 0 !in rest
        invariant forall q :: q in call_stacks && q != 0 && q !in rest ==>
          !(call_stacks[q].hash == temp.hash && PointerEqual(call_stacks[q], temp))
      {
        var q :| q in rest;
        if call_stacks[q].hash == temp.hash && PointerEqual(call_stacks[q], temp) {
          return q;
        }
        rest := rest - {q};
      }
    }

    /** The one object for this stack; an object is made if there is none yet. */
    method GetCallStack(stack: seq<nat>) returns (p: nat)
      requires Valid()
      modifies this
      ensures Valid()
      ensures p != 0 && p in call_stacks && call_stacks[p].stack == stack
      ensures call_stacks == old(call_stacks) ||
        (p !in old(call_stacks) && call_stacks == old(call_stacks)[p := call_stacks[p]])
      ensures (exists q :: q in old(call_stacks) && old(call_stacks)[q].stack == stack) ==>
        call_stacks == old(call_stacks)
    {
      var temp := CallStack(|stack|, stack, hashOf(stack));
      p := Find(temp);
      if p != 0 {
        return;
      }
      var q := NewAddress(call_stacks.Keys);
      call_stacks := call_stacks[q := temp];
      p := q;
    }
  }

  /** An address that is not in use, as the custom allocator returns it. */
  method NewAddress(used: set<nat>) returns (p: nat)
    ensures p != 0 && p !in used
  {
    p := 1;
    var below := {};
    while p in used
      invariant p >= 1 && below <= used
      invariant forall q :: q in below <==> 1 <= q < p
      decreases used - below
    {
      below := below + {p};
      p := p + 1;
    }
    var x :| x != 0 && x !in used;
    p := x;
  }
}
