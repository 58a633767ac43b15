/** An abstract host tree standing in for the browser document: every node
    has an optional parent and an ordered list of children, elements carry
    attributes, and event listeners are recorded by target and type. */
module HostTree {
  import opened Seqs
  import opened Wrappers

  /** Host nodes are identified by the order in which they were created. */
  type NodeId = nat

  /** The values that flow through signals, attributes and text nodes. */
  datatype Value = Num(n: int) | Str(s: string) | Bool(b: bool)

  /** JavaScript truthiness of a value: zero, the empty string and `false`
      are falsy, everything else is truthy. */
  function Truthy(v: Value): (r: bool)
    ensures r <==> v != Num(0) && v != Str("") && v != Bool(false)
  {
    match v
    case Num(n) => n != 0
    case Str(s) => s != ""
    case Bool(b) => b
  }

  datatype NodeKind = ElementNode(tag: string) | TextNode(text: Value) | CommentNode

  datatype EventType = Click | Change

  datatype Listener = Listener(target: NodeId, event: EventType)

  /** The host tree's `NotFoundError`: the reference node is not a child of
      the node being modified. */
  datatype DomError = NotFound

  /** The children of `p` in a child-list map; a node never given children
      has none. */
  function KidsIn(kids: map<NodeId, seq<NodeId>>, p: NodeId): seq<NodeId> {
    if p in kids then kids[p] else []
  }

  ghost predicate Bounded(parent: map<NodeId, NodeId>, kids: map<NodeId, seq<NodeId>>, next: NodeId) {
    && (forall c :: c in parent ==> c < next)
    && (forall p :: p in kids ==> p < next)
  }

  ghost predicate Distinct(kids: map<NodeId, seq<NodeId>>) {
    forall p :: p in kids ==> NoDup(kids[p])
  }

  /** Every listed child has the lister as its parent. */
  ghost predicate ChildrenLinked(parent: map<NodeId, NodeId>, kids: map<NodeId, seq<NodeId>>) {
    forall p, c :: c in KidsIn(kids, p) ==> c in parent && parent[c] == p
  }

  /** Every node with a parent is listed among that parent's children. */
  ghost predicate ParentsLinked(parent: map<NodeId, NodeId>, kids: map<NodeId, seq<NodeId>>) {
    forall c :: c in parent ==> c in KidsIn(kids, parent[c])
  }

  /** Parent links and child lists describe the same forest, child lists
      have no repetitions, and only created nodes are mentioned. */
  ghost predicate Tree(parent: map<NodeId, NodeId>, kids: map<NodeId, seq<NodeId>>, next: NodeId) {
    && Bounded(parent, kids, next)
    && Distinct(kids)
    && ChildrenLinked(parent, kids)
    && ParentsLinked(parent, kids)
  }

  /** The child lists once `x` is taken out of its parent's list. */
  function Detached(parent: map<NodeId, NodeId>, kids: map<NodeId, seq<NodeId>>, x: NodeId): map<NodeId, seq<NodeId>> {
    if x in parent then kids[parent[x] := Except(KidsIn(kids, parent[x]), {x})] else kids
  }

  lemma DetachKidsAt(parent: map<NodeId, NodeId>, kids: map<NodeId, seq<NodeId>>, x: NodeId, q: NodeId)
    requires ChildrenLinked(parent, kids)
    ensures KidsIn(Detached(parent, kids, x), q) == Except(KidsIn(kids, q), {x})
  {
    if !(x in parent && parent[x] == q) {
      assert x !in KidsIn(kids, q);
      ExceptDisjoint(KidsIn(kids, q), {x});
    }
  }

  lemma DetachDistinct(parent: map<NodeId, NodeId>, kids: map<NodeId, seq<NodeId>>, x: NodeId)
    requires ChildrenLinked(parent, kids) && Distinct(kids)
    ensures Distinct(Detached(parent, kids, x))
  {
    var k2 := Detached(parent, kids, x);
    forall p | p in k2 ensures NoDup(k2[p]) {
      DetachKidsAt(parent, kids, x, p);
      assert k2[p] == KidsIn(k2, p);
      ExceptNoDup(KidsIn(kids, p), {x});
    }
  }

  lemma DetachChildren(parent: map<NodeId, NodeId>, kids: map<NodeId, seq<NodeId>>, x: NodeId)
    requires ChildrenLinked(parent, kids)
    ensures ChildrenLinked(parent - {x}, Detached(parent, kids, x))
  {
    var k2 := Detached(parent, kids, x);
    var p2 := parent - {x};
    forall p, c | c in KidsIn(k2, p) ensures c in p2 && p2[c] == p {
      DetachKidsAt(parent, kids, x, p);
    }
  }

  lemma DetachParents(parent: map<NodeId, NodeId>, kids: map<NodeId, seq<NodeId>>, x: NodeId)
    requires ChildrenLinked(parent, kids) && ParentsLinked(parent, kids)
    ensures ParentsLinked(parent - {x}, Detached(parent, kids, x))
  {
    var k2 := Detached(parent, kids, x);
    var p2 := parent - {x};
    forall c | c in p2 ensures c in KidsIn(k2, p2[c]) {
      DetachKidsAt(parent, kids, x, parent[c]);
    }
  }

  /** Detaching a node keeps the forest and removes it from every list. */
  lemma Detach(parent: map<NodeId, NodeId>, kids: map<NodeId, seq<NodeId>>, next: NodeId, x: NodeId)
    requires Tree(parent, kids, next)
    ensures Tree(parent - {x}, Detached(parent, kids, x), next)
    ensures forall q :: KidsIn(Detached(parent, kids, x), q) == Except(KidsIn(kids, q), {x})
  {
    forall q ensures KidsIn(Detached(parent, kids, x), q) == Except(KidsIn(kids, q), {x}) {
      DetachKidsAt(parent, kids, x, q);
    }
    DetachDistinct(parent, kids, x);
    DetachChildren(parent, kids, x);
    DetachParents(parent, kids, x);
  }

  /** The child lists once `x` is put at position `i` of `p`'s list. */
  function Inserted(kids: map<NodeId, seq<NodeId>>, p: NodeId, i: nat, x: NodeId): map<NodeId, seq<NodeId>>
    requires i <= |KidsIn(kids, p)|
  {
    var s := KidsIn(kids, p);
    kids[p := s[..i] + [x] + s[i..]]
  }

  lemma InsertDistinct(parent: map<NodeId, NodeId>, kids: map<NodeId, seq<NodeId>>, p: NodeId, i: nat, x: NodeId)
    requires i <= |KidsIn(kids, p)| && x !in parent
    requires ChildrenLinked(parent, kids) && Distinct(kids)
    ensures Distinct(Inserted(kids, p, i, x))
  {
    var s := KidsIn(kids, p);
    assert NoDup(s) by { if p in kids { assert s == kids[p]; } }
    assert x !in s;
    SpliceNoDup(s, i, [x]);
  }

  lemma InsertChildren(parent: map<NodeId, NodeId>, kids: map<NodeId, seq<NodeId>>, p: NodeId, i: nat, x: NodeId)
    requires i <= |KidsIn(kids, p)| && x !in parent
    requires ChildrenLinked(parent, kids)
    ensures ChildrenLinked(parent[x := p], Inserted(kids, p, i, x))
  {
    var s := KidsIn(kids, p);
    var k2 := Inserted(kids, p, i, x);
    forall q, c | c in KidsIn(k2, q) ensures c in parent[x := p] && parent[x := p][c] == q {
      if q == p {
        assert KidsIn(k2, q) == s[..i] + [x] + s[i..];
        if c != x {
          assert c in s;
        }
      } else {
        assert KidsIn(k2, q) == KidsIn(kids, q);
      }
    }
  }

  lemma InsertParents(parent: map<NodeId, NodeId>, kids: map<NodeId, seq<NodeId>>, p: NodeId, i: nat, x: NodeId)
    requires i <= |KidsIn(kids, p)| && x !in parent
    requires ParentsLinked(parent, kids)
    ensures ParentsLinked(parent[x := p], Inserted(kids, p, i, x))
  {
    var s := KidsIn(kids, p);
    var k2 := Inserted(kids, p, i, x);
    var p2 := parent[x := p];
    assert KidsIn(k2, p) == s[..i] + [x] + s[i..];
    forall c | c in p2 ensures c in KidsIn(k2, p2[c]) {
      if c != x && parent[c] == p {
        assert c in s;
        assert s == s[..i] + s[i..];
      }
    }
  }

  /** Inserting a detached node into a list keeps the forest. */
  lemma Insert(parent: map<NodeId, NodeId>, kids: map<NodeId, seq<NodeId>>, next: NodeId, p: NodeId, i: nat, x: NodeId)
    requires Tree(parent, kids, next)
    requires i <= |KidsIn(kids, p)| && x !in parent && p < next && x < next
    ensures Tree(parent[x := p], Inserted(kids, p, i, x), next)
  {
    InsertDistinct(parent, kids, p, i, x);
    InsertChildren(parent, kids, p, i, x);
    InsertParents(parent, kids, p, i, x);
  }

  /** One step of `append`: moving `x` to the end of a list that already
      ends with the nodes moved so far. */
  lemma AppendStep(k0: seq<NodeId>, e: set<NodeId>, done: seq<NodeId>, x: NodeId)
    requires x !in done
    ensures Except(Except(k0, e) + done, {x}) + [x] == Except(k0, e + {x}) + (done + [x])
  {
    ExceptConcat(Except(k0, e), done, {x});
    ExceptDisjoint(done, {x});
    ExceptExcept(k0, e, {x});
  }

  /** Re-linking a node that was just unlinked. */
  lemma Relink(m: map<NodeId, NodeId>, x: NodeId, v: NodeId)
    ensures (m - {x})[x := v] == m[x := v]
  {
  }

  lemma RelinkPast(m: map<NodeId, NodeId>, x: NodeId, y: NodeId, v: NodeId)
    ensures ((m - {x}) - {y})[x := v] == (m - {y})[x := v]
  {
  }

  lemma UnlinkMore(m: map<NodeId, NodeId>, e: set<NodeId>, x: NodeId)
    ensures (m - e) - {x} == m - (e + {x})
  {
  }

  /** Every node with a kind or an attribute has been created. */
  ghost predicate Created(kind: map<NodeId, NodeKind>, attrs: map<(NodeId, string), Value>, next: NodeId) {
    && (forall n :: n in kind ==> n < next)
    && forall k :: k in attrs ==> k.0 < next
  }

  class Host {
    var parent: map<NodeId, NodeId>
    var kids: map<NodeId, seq<NodeId>>
    var kind: map<NodeId, NodeKind>
    var attrs: map<(NodeId, string), Value>
    var listeners: seq<Listener>
    var next: NodeId

    /** The tree is a forest of created nodes. */
    ghost predicate Valid()
      reads this
    {
      Tree(parent, kids, next) && Created(kind, attrs, next)
    }

    /** The ordered children of `p`. */
    function Kids(p: NodeId): seq<NodeId>
      reads this
    {
      KidsIn(kids, p)
    }

    /** `x.parentNode !== null`. */
    predicate Attached(x: NodeId)
      reads this
    {
      x in parent
    }

    /** Being a child of `p` and having `p` as parent are the same thing. */
    lemma ChildOf(p: NodeId, x: NodeId)
      requires Valid()
      ensures x in Kids(p) <==> x in parent && parent[x] == p
    {
    }

    constructor ()
      ensures Valid()
      ensures parent == map[] && kids == map[] && kind == map[] && attrs == map[]
      ensures listeners == [] && next == 0
    {
      parent, kids, kind, attrs := map[], map[], map[], map[];
      listeners, next := [], 0;
    }

    method Create(k: NodeKind) returns (n: NodeId)
      requires Valid()
      modifies this`next, this`kind
      ensures Valid()
      ensures n == old(next) && next == n + 1 && kind == old(kind)[n := k]
      ensures !Attached(n) && Kids(n) == [] && n !in old(kind)
    {
      n := next;
      next := next + 1;
      kind := kind[n := k];
    }

    /** `document.createElement(tag)`. */
    method CreateElement(tag: string) returns (n: NodeId)
      requires Valid()
      modifies this`next, this`kind
      ensures Valid()
      ensures n == old(next) && next == n + 1 && kind == old(kind)[n := ElementNode(tag)]
      ensures !Attached(n) && Kids(n) == [] && n !in old(kind)
    {
      n := Create(ElementNode(tag));
    }

    /** `document.createTextNode(v)`. */
    method CreateText(v: Value) returns (n: NodeId)
      requires Valid()
      modifies this`next, this`kind
      ensures Valid()
      ensures n == old(next) && next == n + 1 && kind == old(kind)[n := TextNode(v)]
      ensures !Attached(n) && Kids(n) == [] && n !in old(kind)
    {
      n := Create(TextNode(v));
    }

    /** `document.createComment("")`, used for placeholders. */
    method CreateComment() returns (n: NodeId)
      requires Valid()
      modifies this`next, this`kind
      ensures Valid()
      ensures n == old(next) && next == n + 1 && kind == old(kind)[n := CommentNode]
      ensures !Attached(n) && Kids(n) == [] && n !in old(kind)
    {
      n := Create(CommentNode);
    }

    /** `x.remove()`: detaches `x` from its parent, if it has one. */
    method Remove(x: NodeId)
      requires Valid()
      modifies this`parent, this`kids
      ensures Valid()
      ensures parent == old(parent) - {x}
      ensures forall q :: Kids(q) == Except(old(Kids(q)), {x})
    {
      Detach(parent, kids, next, x);
      kids, parent := Detached(parent, kids, x), parent - {x};
    }

    /** The insertion step shared by the mutations below: a detached `x`
        goes to position `i` of `p`'s children. */
    method InsertAt(p: NodeId, i: nat, x: NodeId)
      requires Valid() && p < next && x < next && !Attached(x) && i <= |Kids(p)|
      modifies this`parent, this`kids
      ensures Valid()
      ensures parent == old(parent)[x := p]
      ensures Kids(p) == old(Kids(p))[..i] + [x] + old(Kids(p))[i..]
      ensures forall q :: q != p ==> Kids(q) == old(Kids(q))
    {
      Insert(parent, kids, next, p, i, x);
      kids := Inserted(kids, p, i, x);
      parent := parent[x := p];
    }

    /** `p.appendChild(x)`: moves `x` to the end of `p`'s children. */
    method AppendChild(p: NodeId, x: NodeId)
      requires Valid() && p < next && x < next
      modifies this`parent, this`kids
      ensures Valid()
      ensures parent == old(parent)[x := p]
      ensures Kids(p) == Except(old(Kids(p)), {x}) + [x]
      ensures forall q :: q != p ==> Kids(q) == Except(old(Kids(q)), {x})
    {
      Remove(x);
      ghost var s := Kids(p);
      InsertAt(p, |Kids(p)|, x);
      InsertAtEnd(s, x);
      Relink(old(parent), x, p);
    }

    /** `p.append(...xs)`: moves the nodes of `xs`, in order, to the end of
        `p`'s children. */
    method Append(p: NodeId, xs: seq<NodeId>)
      requires Valid() && p < next && forall x :: x in xs ==> x < next
      requires NoDup(xs)
      modifies this`parent, this`kids
      ensures Valid()
      ensures forall x :: x in xs ==> x in parent && parent[x] == p
      ensures forall x :: x !in xs ==> (x in parent <==> x in old(parent))
      ensures forall x :: x !in xs && x in old(parent) ==> parent[x] == old(parent)[x]
      ensures Kids(p) == Except(old(Kids(p)), Elems(xs)) + xs
      ensures forall q :: q != p ==> Kids(q) == Except(old(Kids(q)), Elems(xs))
    {
      assert xs[..0] == [];
      forall q ensures Kids(q) == Except(Kids(q), Elems(xs[..0])) {
        ExceptDisjoint(Kids(q), Elems(xs[..0]));
      }
      for i := 0 to |xs|
        invariant Valid()
        invariant forall x :: x in xs[..i] ==> x in parent && parent[x] == p
        invariant forall x :: x !in xs[..i] ==> (x in parent <==> x in old(parent))
        invariant forall x :: x !in xs[..i] && x in old(parent) ==> parent[x] == old(parent)[x]
        invariant Kids(p) == Except(old(Kids(p)), Elems(xs[..i])) + xs[..i]
        invariant forall q :: q != p ==> Kids(q) == Except(old(Kids(q)), Elems(xs[..i]))
      {
        var x := xs[i];
        assert x in xs;
        ghost var e := Elems(xs[..i]);
        PrefixStep(xs, i);
        AppendChild(p, x);
        AppendStep(old(Kids(p)), e, xs[..i], x);
        forall q | q != p ensures Kids(q) == Except(old(Kids(q)), e + {x}) {
          ExceptExcept(old(Kids(q)), e, {x});
        }
      }
      assert xs[..|xs|] == xs;
    }

    /** `p.insertBefore(x, ref)`: fails when `ref` is not a child of `p`;
        otherwise moves `x` to just before `ref`. */
    method InsertBefore(p: NodeId, x: NodeId, ref: NodeId) returns (r: Outcome<DomError>)
      requires Valid() && p < next && x < next && x != ref
      modifies this`parent, this`kids
      ensures Valid()
      ensures ref !in old(Kids(p)) ==> r == Fail(NotFound) && parent == old(parent) && kids == old(kids)
      ensures ref in old(Kids(p)) ==>
        && r == Ok
        && parent == old(parent)[x := p]
        && Kids(p) == InsertedBefore(Except(old(Kids(p)), {x}), ref, x)
        && forall q :: q != p ==> Kids(q) == Except(old(Kids(q)), {x})
    {
      if ref !in Kids(p) {
        return Fail(NotFound);
      }
      Remove(x);
      var i := IndexOf(Kids(p), ref);
      InsertAt(p, i, x);
      Relink(old(parent), x, p);
      r := Ok;
    }

    /** `ref.after(...xs)`: nothing happens when `ref` has no parent;
        otherwise the nodes of `xs` are moved, in order, to just after
        `ref`. */
    method After(ref: NodeId, xs: seq<NodeId>)
      requires Valid() && forall x :: x in xs ==> x < next
      requires ref !in xs && NoDup(xs)
      modifies this`parent, this`kids
      ensures Valid()
      ensures !old(Attached(ref)) ==> parent == old(parent) && kids == old(kids)
      ensures old(Attached(ref)) ==>
        var p := old(parent)[ref];
        && Kids(p) == InsertedAfter(Except(old(Kids(p)), Elems(xs)), ref, xs)
        && (forall q :: q != p ==> Kids(q) == Except(old(Kids(q)), Elems(xs)))
        && (forall x :: x in xs ==> x in parent && parent[x] == p)
        && (forall x :: x !in xs ==> (x in parent <==> x in old(parent)))
        && (forall x :: x !in xs && x in old(parent) ==> parent[x] == old(parent)[x])
    {
      if ref !in parent {
        return;
      }
      var p := parent[ref];
      ChildOf(p, ref);
      RemoveEach(xs);
      assert ref in Kids(p) by { ChildOf(p, ref); }
      var j := IndexOf(Kids(p), ref) + 1;
      InsertRun(p, j, xs);
    }

    /** The second half of `after`: the detached nodes of `xs` are placed,
        in order, from position `j` of `p`'s children on. */
    method InsertRun(p: NodeId, j: nat, xs: seq<NodeId>)
      requires Valid() && p < next && j <= |Kids(p)|
      requires NoDup(xs) && forall x :: x in xs ==> x < next && x !in parent
      modifies this`parent, this`kids
      ensures Valid()
      ensures Kids(p) == old(Kids(p))[..j] + xs + old(Kids(p))[j..]
      ensures forall q :: q != p ==> Kids(q) == old(Kids(q))
      ensures forall x :: x in xs ==> x in parent && parent[x] == p
      ensures forall x :: x !in xs ==> (x in parent <==> x in old(parent))
      ensures forall x :: x !in xs && x in old(parent) ==> parent[x] == old(parent)[x]
    {
      ghost var s0 := Kids(p);
      RunStart(s0, j, xs);
      for k := 0 to |xs|
        invariant Valid()
        invariant Kids(p) == s0[..j] + xs[..k] + s0[j..]
        invariant forall q :: q != p ==> Kids(q) == old(Kids(q))
        invariant forall x :: x in xs[..k] ==> x in parent && parent[x] == p
        invariant forall x :: x in xs[k..] ==> x !in parent
        invariant forall x :: x !in xs ==> (x in parent <==> x in old(parent))
        invariant forall x :: x !in xs && x in old(parent) ==> parent[x] == old(parent)[x]
      {
        var x := xs[k];
        ghost var t := Kids(p);
        assert x in xs[k..];
        PrefixStep(xs, k);
        SuffixStep(xs, k);
        RunStep(s0, j, xs, k);
        InsertAt(p, j + k, x);
      }
      SplitEnds(xs);
    }

    /** `for (const x of xs) x.remove()`: every node of `xs` is detached, one
        after the other; also the first half of `after`. */
    method RemoveEach(xs: seq<NodeId>)
      requires Valid()
      modifies this`parent, this`kids
      ensures Valid()
      ensures parent == old(parent) - Elems(xs)
      ensures forall q :: Kids(q) == Except(old(Kids(q)), Elems(xs))
    {
      assert xs[..0] == [];
      forall q ensures Kids(q) == Except(Kids(q), Elems(xs[..0])) {
        ExceptDisjoint(Kids(q), Elems(xs[..0]));
      }
      for i := 0 to |xs|
        invariant Valid()
        invariant parent == old(parent) - Elems(xs[..i])
        invariant forall q :: Kids(q) == Except(old(Kids(q)), Elems(xs[..i]))
      {
        ghost var e := Elems(xs[..i]);
        PrefixStep(xs, i);
        Remove(xs[i]);
        UnlinkMore(old(parent), e, xs[i]);
        forall q ensures Kids(q) == Except(old(Kids(q)), e + {xs[i]}) {
          ExceptExcept(old(Kids(q)), e, {xs[i]});
        }
      }
      assert xs[..|xs|] == xs;
    }

    /** `p.replaceChild(node, child)`: fails when `child` is not a child of
        `p`; otherwise `node`, moved out of wherever it was, takes `child`'s
        place and `child` is detached. */
    method ReplaceChild(p: NodeId, node: NodeId, child: NodeId) returns (r: Outcome<DomError>)
      requires Valid() && p < next && node < next
      modifies this`parent, this`kids
      ensures Valid()
      ensures child !in old(Kids(p)) ==> r == Fail(NotFound) && parent == old(parent) && kids == old(kids)
      ensures child in old(Kids(p)) && node == child ==> r == Ok && parent == old(parent) && kids == old(kids)
      ensures child in old(Kids(p)) && node != child ==>
        && r == Ok
        && parent == (old(parent) - {child})[node := p]
        && Kids(p) == Replaced(Except(old(Kids(p)), {node}), child, node)
        && forall q :: q != p ==> Kids(q) == Except(old(Kids(q)), {node})
    {
      if child !in Kids(p) {
        return Fail(NotFound);
      }
      if node == child {
        return Ok;
      }
      Remove(node);
      ghost var s0 := Kids(p);
      var i := IndexOf(Kids(p), child);
      ghost var mid := kids;
      forall q | q != p ensures child !in KidsIn(mid, q) { ChildOf(q, child); }
      Remove(child);
      forall q | q != p ensures Kids(q) == KidsIn(mid, q) {
        ExceptDisjoint(KidsIn(mid, q), {child});
      }
      ExceptAt(s0, i);
      InsertAt(p, i, node);
      PutAt(s0, i, node);
      RelinkPast(old(parent), node, child, p);
      r := Ok;
    }

    /** `el.setAttribute(key, v)`. */
    method SetAttribute(el: NodeId, key: string, v: Value)
      requires Valid() && el < next
      modifies this`attrs
      ensures Valid()
      ensures attrs == old(attrs)[(el, key) := v]
    {
      attrs := attrs[(el, key) := v];
    }

    /** `el.addEventListener(event, ...)`: only the registration is kept. */
    method AddEventListener(el: NodeId, event: EventType)
      modifies this`listeners
      ensures listeners == old(listeners) + [Listener(el, event)]
    {
      listeners := listeners + [Listener(el, event)];
    }
  }
}
