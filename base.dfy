/** The behaviour every render node shares: a list of host nodes that stand
    for it and a comment placeholder that takes their place while it is
    hidden. `directiveIf` switches between the two. */
module BaseComponent {
  import opened Wrappers
  import opened Seqs
  import opened HostTree

  /** What a render node can throw: the placeholder error of `show`, calling
      a `d-if` value that is not a function, a node without a host to mount
      into, and a host-tree error. */
  datatype Error = PlaceholderMissing | NotAFunction | NoHost | Dom(e: DomError)

  /** What `directiveIf` switches between: a node's content nodes and its
      placeholder. */
  datatype Target = Target(nodes: seq<NodeId>, ph: NodeId)

  /** In `parent`, the target's content is attached and its placeholder is
      not (`show`), or the other way round. */
  ghost predicate ShownIn(parent: map<NodeId, NodeId>, t: Target, show: bool) {
    if show then (forall n :: n in t.nodes ==> n in parent) && t.ph !in parent
    else (forall n :: n in t.nodes ==> n !in parent) && t.ph in parent
  }

  /** The node's content is in the tree and its placeholder is not. */
  ghost predicate Shown(host: Host, nodes: seq<NodeId>, ph: NodeId)
    reads host
  {
    ShownIn(host.parent, Target(nodes, ph), true)
  }

  /** The node's placeholder is in the tree and its content is not. */
  ghost predicate Hidden(host: Host, nodes: seq<NodeId>, ph: NodeId)
    reads host
  {
    ShownIn(host.parent, Target(nodes, ph), false)
  }

  /** Exactly one of content and placeholder is attached. */
  ghost predicate Exclusive(host: Host, nodes: seq<NodeId>, ph: NodeId)
    reads host
  {
    Shown(host, nodes, ph) || Hidden(host, nodes, ph)
  }

  /** From `p0` to `p1` only the content nodes and the placeholder changed
      attachment: `show` and `hide` touch no other node's parent link. */
  ghost predicate OnlyToggles(p0: map<NodeId, NodeId>, p1: map<NodeId, NodeId>, nodes: seq<NodeId>, ph: NodeId) {
    forall x :: x !in nodes && x != ph ==> (x in p1 <==> x in p0)
  }

  /** What `show` and `hide` need of a built node: some content nodes, none
      repeated, none of them the placeholder, all of them created. */
  ghost predicate Toggleable(host: Host, nodes: seq<NodeId>, ph: NodeId)
    reads host
  {
    && nodes != [] && NoDup(nodes) && ph !in nodes
    && ph < host.next && forall n :: n in nodes ==> n < host.next
  }

  /** `show`: nothing to do when the first content node is attached; an
      error when the placeholder is not attached either; otherwise the
      content goes, in order, right after the placeholder, which is then
      detached. */
  method Show(host: Host, nodes: seq<NodeId>, ph: NodeId) returns (r: Outcome<Error>)
    requires host.Valid() && Toggleable(host, nodes, ph)
    modifies host`parent, host`kids
    ensures host.Valid()
    ensures old(host.Attached(nodes[0])) ==>
      r == Ok && host.parent == old(host.parent) && host.kids == old(host.kids)
    ensures !old(host.Attached(nodes[0])) && !old(host.Attached(ph)) ==>
      r == Fail(PlaceholderMissing) && host.parent == old(host.parent) && host.kids == old(host.kids)
    ensures !old(host.Attached(nodes[0])) && old(host.Attached(ph)) ==>
      var p := old(host.parent)[ph];
      && r == Ok
      && ph in old(host.Kids(p))
      && host.Kids(p) == ShowSeq(old(host.Kids(p)), nodes, ph)
      && (forall q :: q != p ==> host.Kids(q) == Except(old(host.Kids(q)), Elems(nodes)))
      && (forall n :: n in nodes ==> n in host.parent && host.parent[n] == p)
      && !host.Attached(ph)
      && (forall x :: x !in nodes && x != ph ==> (x in host.parent <==> x in old(host.parent)))
      && (forall x :: x !in nodes && x != ph && x in old(host.parent) ==> host.parent[x] == old(host.parent)[x])
    ensures old(Exclusive(host, nodes, ph)) ==> r == Ok && Shown(host, nodes, ph)
    ensures OnlyToggles(old(host.parent), host.parent, nodes, ph)
  {
    if host.Attached(nodes[0]) {
      return Ok;
    }
    if !host.Attached(ph) {
      return Fail(PlaceholderMissing);
    }
    var p := host.parent[ph];
    host.ChildOf(p, ph);
    host.After(ph, nodes);
    ghost var mid := host.kids;
    forall q | q != p ensures ph !in KidsIn(mid, q) { host.ChildOf(q, ph); }
    host.Remove(ph);
    forall q | q != p ensures host.Kids(q) == KidsIn(mid, q) {
      ExceptDisjoint(KidsIn(mid, q), {ph});
    }
    r := Ok;
  }

  /** `hide`: nothing to do when the first content node is detached;
      otherwise the placeholder goes right before it and every content node
      is detached. */
  method Hide(host: Host, nodes: seq<NodeId>, ph: NodeId)
    requires host.Valid() && Toggleable(host, nodes, ph)
    modifies host`parent, host`kids
    ensures host.Valid()
    ensures !old(host.Attached(nodes[0])) ==> host.parent == old(host.parent) && host.kids == old(host.kids)
    ensures old(host.Attached(nodes[0])) ==>
      var p := old(host.parent)[nodes[0]];
      && nodes[0] in old(host.Kids(p))
      && host.Kids(p) == HideSeq(old(host.Kids(p)), nodes, ph)
      && (forall q :: q != p ==> host.Kids(q) == Except(old(host.Kids(q)), {ph} + Elems(nodes)))
      && host.parent == old(host.parent)[ph := p] - Elems(nodes)
    ensures old(Exclusive(host, nodes, ph)) ==> Hidden(host, nodes, ph)
    ensures OnlyToggles(old(host.parent), host.parent, nodes, ph)
  {
    if !host.Attached(nodes[0]) {
      return;
    }
    var p := host.parent[nodes[0]];
    host.ChildOf(p, nodes[0]);
    var _ := host.InsertBefore(p, ph, nodes[0]);
    host.RemoveEach(nodes);
    forall q | q != p ensures host.Kids(q) == Except(old(host.Kids(q)), {ph} + Elems(nodes)) {
      ExceptExcept(old(host.Kids(q)), {ph}, Elems(nodes));
    }
  }

  /** `directiveIf(isShow)`. */
  method DirectiveIf(host: Host, nodes: seq<NodeId>, ph: NodeId, isShow: bool) returns (r: Outcome<Error>)
    requires host.Valid() && Toggleable(host, nodes, ph)
    modifies host`parent, host`kids
    ensures host.Valid()
    ensures !isShow ==> r == Ok
    ensures isShow == old(host.Attached(nodes[0])) ==>
      r == Ok && host.parent == old(host.parent) && host.kids == old(host.kids)
    ensures old(Exclusive(host, nodes, ph)) ==>
      r == Ok && (if isShow then Shown(host, nodes, ph) else Hidden(host, nodes, ph))
    ensures OnlyToggles(old(host.parent), host.parent, nodes, ph)
  {
    if isShow {
      r := Show(host, nodes, ph);
    } else {
      Hide(host, nodes, ph);
      r := Ok;
    }
  }

  /** Hiding a shown node and showing it again puts its content back where
      it was, and leaves it shown. */
  method HideThenShow(host: Host, nodes: seq<NodeId>, ph: NodeId, ghost p: NodeId,
                      ghost before: seq<NodeId>, ghost after: seq<NodeId>) returns (r: Outcome<Error>)
    requires host.Valid() && Toggleable(host, nodes, ph)
    requires host.Kids(p) == before + nodes + after && !host.Attached(ph)
    modifies host`parent, host`kids
    ensures r == Ok && host.Kids(p) == old(host.Kids(p)) && Shown(host, nodes, ph)
  {
    assert nodes[0] in host.Kids(p);
    host.ChildOf(p, nodes[0]);
    assert NoDup(before + nodes + after) by { if p in host.kids { } }
    assert ph !in before + nodes + after by { host.ChildOf(p, ph); }
    HideInPlace(before, nodes, after, ph);
    Hide(host, nodes, ph);
    r := Show(host, nodes, ph);
    ShowInPlace(before, nodes, after, ph);
  }
}
