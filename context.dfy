/** The build context: a static id counter, the component whose function is
    currently running, and the stack of components whose build is under
    way. It is generic in the component type so that it does not depend on
    the render-node classes that use it. */
module BuildContext {
  import opened Wrappers

  class Context<C> {
    var id: nat
    var current: Option<C>
    var parent: seq<C>
    /** Every id handed out so far, in order. */
    ghost var issued: seq<nat>

    ghost predicate Valid()
      reads this
    {
      |issued| == id && forall k :: 0 <= k < |issued| ==> issued[k] == k + 1
    }

    /** The ids handed out are exactly 1, 2, ..., `id`, so none repeats. */
    lemma IssuedDistinct()
      requires Valid()
      ensures forall i, j :: 0 <= i < j < |issued| ==> issued[i] < issued[j]
      ensures forall k :: 0 <= k < |issued| ==> 1 <= issued[k] <= id
    {
    }

    constructor ()
      ensures Valid()
      ensures id == 0 && current == None && parent == [] && issued == []
    {
      id, current, parent, issued := 0, None, [], [];
    }

    /** `getId`: the pre-incremented counter. */
    method GetId() returns (r: nat)
      requires Valid()
      modifies this`id, this`issued
      ensures Valid()
      ensures r == old(id) + 1 && id == r
      ensures issued == old(issued) + [r] && r !in old(issued)
    {
      id := id + 1;
      r := id;
      issued := issued + [r];
    }

    /** `Context.parent.push(c)`. */
    method Push(c: C)
      modifies this`parent
      ensures parent == old(parent) + [c]
    {
      parent := parent + [c];
    }

    /** `Context.parent.pop()`; popping an empty stack does nothing. */
    method Pop()
      modifies this`parent
      ensures old(parent) == [] ==> parent == []
      ensures old(parent) != [] ==> parent == old(parent)[..|old(parent)| - 1]
    {
      if parent != [] {
        parent := parent[..|parent| - 1];
      }
    }
  }

  /** A fresh context hands out 1, then 2. */
  method FirstIds() returns (a: nat, b: nat)
    ensures a == 1 && b == 2
  {
    var ctx := new Context<bool>();
    a := ctx.GetId();
    b := ctx.GetId();
  }
}
