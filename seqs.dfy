/** Sequence algebra for ordered child lists: duplicate-freedom, removal of a
    set of elements, first index, and the two splices that the placeholder
    toggle performs on a parent's child list. */
module Seqs {

  ghost predicate NoDup<T>(s: seq<T>) {
    forall i, j :: 0 <= i < j < |s| ==> At(s, i) != At(s, j)
  }

  ghost function At<T>(s: seq<T>, i: nat): T
    requires i < |s|
  {
    s[i]
  }

  /** Two positions of a duplicate-free sequence hold different elements. */
  lemma NoDupAt<T>(s: seq<T>, i: nat, j: nat)
    requires NoDup(s) && i < |s| && j < |s| && i != j
    ensures s[i] != s[j]
  {
    if i < j { assert At(s, i) != At(s, j); } else { assert At(s, j) != At(s, i); }
  }

  /** The elements of `s` that are not in `xs`, in their original order. */
  function Except<T(!new)>(s: seq<T>, xs: set<T>): (r: seq<T>)
    ensures |r| <= |s|
    ensures forall x :: x in r <==> x in s && x !in xs
    decreases |s|
  {
    if s == [] then []
    else if s[0] in xs then Except(s[1..], xs)
    else [s[0]] + Except(s[1..], xs)
  }

  /** Removing elements keeps a duplicate-free sequence duplicate-free. */
  lemma {:induction false} ExceptNoDup<T(!new)>(s: seq<T>, xs: set<T>)
    requires NoDup(s)
    ensures NoDup(Except(s, xs))
    decreases |s|
  {
    if s != [] {
      assert NoDup(s[1..]) by {
        forall i, j | 0 <= i < j < |s[1..]| ensures s[1..][i] != s[1..][j] {
          assert s[1..][i] == s[i + 1] && s[1..][j] == s[j + 1];
          NoDupAt(s, i + 1, j + 1);
        }
      }
      ExceptNoDup(s[1..], xs);
      if s[0] !in xs {
        var t := Except(s[1..], xs);
        assert s[0] !in s[1..] by {
          forall k | 0 <= k < |s[1..]| ensures s[1..][k] != s[0] { assert s[1..][k] == s[k + 1]; NoDupAt(s, 0, k + 1); }
        }
        var r := [s[0]] + t;
        forall i, j | 0 <= i < j < |r| ensures r[i] != r[j] {
          if i == 0 { assert r[j] == t[j - 1] && r[j] in t; } else { assert r[i] == t[i - 1] && r[j] == t[j - 1]; NoDupAt(t, i - 1, j - 1); }
        }
      }
    }
  }

  lemma {:induction false} ExceptConcat<T(!new)>(a: seq<T>, b: seq<T>, xs: set<T>)
    ensures Except(a + b, xs) == Except(a, xs) + Except(b, xs)
    decreases |a|
  {
    if a == [] {
      assert a + b == b;
    } else {
      assert (a + b)[0] == a[0];
      assert (a + b)[1..] == a[1..] + b;
      ExceptConcat(a[1..], b, xs);
    }
  }

  /** Removing nothing that occurs leaves the sequence as it was. */
  lemma {:induction false} ExceptDisjoint<T(!new)>(s: seq<T>, xs: set<T>)
    requires forall x :: x in s ==> x !in xs
    ensures Except(s, xs) == s
    decreases |s|
  {
    if s != [] {
      assert s[0] in s;
      forall x | x in s[1..] ensures x !in xs { assert x in s; }
      ExceptDisjoint(s[1..], xs);
    }
  }

  /** Removing all of `s` leaves nothing. */
  lemma {:induction false} ExceptAll<T(!new)>(s: seq<T>, xs: set<T>)
    requires forall x :: x in s ==> x in xs
    ensures Except(s, xs) == []
    decreases |s|
  {
    if s != [] {
      assert s[0] in s;
      forall x | x in s[1..] ensures x in xs { assert x in s; }
      ExceptAll(s[1..], xs);
    }
  }

  /** Two removals in a row are one removal of the union. */
  lemma {:induction false} ExceptExcept<T(!new)>(s: seq<T>, a: set<T>, b: set<T>)
    ensures Except(Except(s, a), b) == Except(s, a + b)
    decreases |s|
  {
    if s != [] {
      ExceptExcept(s[1..], a, b);
      if s[0] !in a {
        assert Except(s, a) == [s[0]] + Except(s[1..], a);
        assert Except(s, a)[0] == s[0];
        assert Except(s, a)[1..] == Except(s[1..], a);
      }
    }
  }

  /** The first position at which `x` occurs in `s`. */
  function IndexOf<T(==)>(s: seq<T>, x: T): (i: nat)
    requires x in s
    ensures i < |s| && s[i] == x && x !in s[..i]
    decreases |s|
  {
    if s[0] == x then 0
    else
      var j := IndexOf(s[1..], x);
      assert s[..j + 1] == [s[0]] + s[1..][..j];
      j + 1
  }

  /** In a duplicate-free sequence the first position of `x` is its only one. */
  lemma IndexOfUnique<T>(s: seq<T>, x: T, k: nat)
    requires NoDup(s) && k < |s| && s[k] == x
    ensures IndexOf(s, x) == k
  {
    if IndexOf(s, x) != k {
      NoDupAt(s, k, IndexOf(s, x));
    }
  }

  /** The ordered set of the elements of a sequence. */
  function Elems<T(!new)>(s: seq<T>): (r: set<T>)
    ensures forall x :: x in r <==> x in s
  {
    set x | x in s
  }

  /** The child list of `nodes[0]`'s parent after `hide`: the placeholder
      `ph` (moved out of wherever it was) is inserted just before the first
      node, and then every node of `nodes` is removed. */
  function HideSeq<T(==,!new)>(s: seq<T>, nodes: seq<T>, ph: T): (r: seq<T>)
    requires nodes != [] && nodes[0] in s && ph !in nodes
    ensures ph in r
    ensures forall x :: x in nodes ==> x !in r
  {
    var r := Except(InsertedBefore(Except(s, {ph}), nodes[0], ph), Elems(nodes));
    assert ph in InsertedBefore(Except(s, {ph}), nodes[0], ph);
    r
  }

  /** The child list of the placeholder's parent after `show`: `nodes`
      (moved out of wherever they were) are inserted just after `ph`, in
      order, and then `ph` is removed. */
  function ShowSeq<T(==,!new)>(s: seq<T>, nodes: seq<T>, ph: T): (r: seq<T>)
    requires ph in s && ph !in nodes
    ensures ph !in r
    ensures forall x :: x in nodes ==> x in r
  {
    var t := InsertedAfter(Except(s, Elems(nodes)), ph, nodes);
    assert forall x :: x in nodes ==> x in t by {
      var i := IndexOf(Except(s, Elems(nodes)), ph);
      assert t[i + 1..i + 1 + |nodes|] == nodes;
      forall x | x in nodes ensures x in t {
        var k :| 0 <= k < |nodes| && nodes[k] == x;
        assert t[i + 1 + k] == x;
      }
    }
    Except(t, {ph})
  }

  /** No element of `before` or `after` is one of `nodes` when the three
      together are free of duplicates. */
  lemma SeparateParts<T(!new)>(before: seq<T>, nodes: seq<T>, after: seq<T>)
    requires NoDup(before + nodes + after)
    ensures forall x :: x in before ==> x !in Elems(nodes)
    ensures forall x :: x in after ==> x !in Elems(nodes)
  {
    var s := before + nodes + after;
    forall x | x in before ensures x !in Elems(nodes) {
      var a :| 0 <= a < |before| && before[a] == x;
      forall b | 0 <= b < |nodes| ensures nodes[b] != x {
        assert s[a] == x && s[|before| + b] == nodes[b];
        NoDupAt(s, a, |before| + b);
      }
    }
    forall x | x in after ensures x !in Elems(nodes) {
      var a :| 0 <= a < |after| && after[a] == x;
      forall b | 0 <= b < |nodes| ensures nodes[b] != x {
        assert s[|before| + |nodes| + a] == x && s[|before| + b] == nodes[b];
        NoDupAt(s, |before| + |nodes| + a, |before| + b);
      }
    }
  }

  /** Removing a block whose elements are exactly those removed, from
      between two runs that keep all their elements. */
  lemma DropBlock<T(!new)>(before: seq<T>, keep: seq<T>, block: seq<T>, after: seq<T>, xs: set<T>)
    requires forall x :: x in before ==> x !in xs
    requires forall x :: x in keep ==> x !in xs
    requires forall x :: x in after ==> x !in xs
    requires forall x :: x in block ==> x in xs
    ensures Except(before + keep + block + after, xs) == before + keep + after
  {
    var a := before + keep;
    var b := a + block;
    ExceptConcat(b, after, xs);
    ExceptConcat(a, block, xs);
    ExceptConcat(before, keep, xs);
    ExceptDisjoint(before, xs);
    ExceptDisjoint(keep, xs);
    ExceptDisjoint(after, xs);
    ExceptAll(block, xs);
    assert Except(a, xs) == a;
    assert Except(b, xs) == a;
  }

  /** When the nodes sit contiguously between `before` and `after`, hiding
      puts the placeholder exactly where they were. */
  lemma HideInPlace<T(!new)>(before: seq<T>, nodes: seq<T>, after: seq<T>, ph: T)
    requires nodes != []
    requires NoDup(before + nodes + after)
    requires ph !in before + nodes + after
    ensures HideSeq(before + nodes + after, nodes, ph) == before + [ph] + after
  {
    var s := before + nodes + after;
    ExceptDisjoint(s, {ph});
    SeparateParts(before, nodes, after);
    assert nodes[0] in Elems(nodes);
    FirstAfterPrefix(before, nodes[1..] + after, nodes[0]);
    assert s == before + [nodes[0]] + (nodes[1..] + after);
    HideSpliced(before, nodes, after, ph);
  }

  lemma HideSpliced<T(!new)>(before: seq<T>, nodes: seq<T>, after: seq<T>, ph: T)
    requires forall x :: x in before ==> x !in Elems(nodes)
    requires forall x :: x in after ==> x !in Elems(nodes)
    requires ph !in nodes
    ensures var s := before + nodes + after;
      var i := |before|;
      Except(s[..i] + [ph] + s[i..], Elems(nodes)) == before + [ph] + after
  {
    var s := before + nodes + after;
    var i := |before|;
    assert s[..i] == before;
    assert s[i..] == nodes + after;
    assert s[..i] + [ph] + s[i..] == before + [ph] + nodes + after;
    DropBlock(before, [ph], nodes, after, Elems(nodes));
  }

  /** Showing from the state that hiding leaves gives back the original
      child list. */
  lemma {:induction false} ShowInPlace<T(!new)>(before: seq<T>, nodes: seq<T>, after: seq<T>, ph: T)
    requires nodes != []
    requires NoDup(before + nodes + after)
    requires ph !in before + nodes + after
    ensures ShowSeq(before + [ph] + after, nodes, ph) == before + nodes + after
  {
    SeparateParts(before, nodes, after);
    ShowBetween(before, nodes, after, ph);
  }

  lemma ShowBetween<T(!new)>(before: seq<T>, nodes: seq<T>, after: seq<T>, ph: T)
    requires ph !in before && ph !in nodes && ph !in after
    requires forall x :: x in before ==> x !in Elems(nodes)
    requires forall x :: x in after ==> x !in Elems(nodes)
    ensures ShowSeq(before + [ph] + after, nodes, ph) == before + nodes + after
  {
    var t := before + [ph] + after;
    var j := |before|;
    NoneOfNodes(before, nodes, after, ph);
    FirstAfterPrefix(before, after, ph);
    assert t[..j + 1] == before + [ph] && t[j + 1..] == after;
    ShowSpliced(before, nodes, after, ph);
  }

  lemma NoneOfNodes<T(!new)>(before: seq<T>, nodes: seq<T>, after: seq<T>, ph: T)
    requires ph !in nodes
    requires forall x :: x in before ==> x !in Elems(nodes)
    requires forall x :: x in after ==> x !in Elems(nodes)
    ensures Except(before + [ph] + after, Elems(nodes)) == before + [ph] + after
  {
    var t := before + [ph] + after;
    forall x | x in t ensures x !in Elems(nodes) {
      assert x in before || x == ph || x in after;
    }
    ExceptDisjoint(t, Elems(nodes));
  }

  lemma ShowSpliced<T(!new)>(before: seq<T>, nodes: seq<T>, after: seq<T>, ph: T)
    requires ph !in before && ph !in nodes && ph !in after
    ensures Except(before + [ph] + nodes + after, {ph}) == before + nodes + after
  {
    var a := before + [ph];
    assert a + nodes + after == before + [ph] + (nodes + after);
    DropOne(before, ph, nodes + after);
    assert before + (nodes + after) == before + nodes + after;
  }

  /** Removing one element that occurs only once. */
  lemma DropOne<T(!new)>(before: seq<T>, x: T, rest: seq<T>)
    requires x !in before && x !in rest
    ensures Except(before + [x] + rest, {x}) == before + rest
  {
    var a := before + [x];
    ExceptConcat(a, rest, {x});
    ExceptConcat(before, [x], {x});
    ExceptDisjoint(before, {x});
    ExceptDisjoint(rest, {x});
    assert [x][1..] == [];
    assert Except([x], {x}) == Except([], {x}) == [];
    assert Except(a, {x}) == before;
  }

  /** An element absent from a prefix is first found right after it. */
  lemma FirstAfterPrefix<T(!new)>(before: seq<T>, after: seq<T>, x: T)
    requires x !in before
    ensures IndexOf(before + [x] + after, x) == |before|
  {
    var t := before + [x] + after;
    assert t[|before|] == x;
    assert t[..|before|] == before;
  }

  /** Splicing a duplicate-free run into a duplicate-free sequence that
      shares none of its elements keeps the result duplicate-free. */
  lemma SpliceNoDup<T(!new)>(s: seq<T>, k: nat, xs: seq<T>)
    requires k <= |s| && NoDup(s) && NoDup(xs)
    requires forall x :: x in xs ==> x !in s
    ensures NoDup(s[..k] + xs + s[k..])
  {
    var r := s[..k] + xs + s[k..];
    forall i, j | 0 <= i < j < |r| ensures r[i] != r[j] {
      if i < k && j < k + |xs| && j >= k {
        assert r[i] == s[i] && r[j] == xs[j - k];
        assert s[i] in s;
      } else if i >= k && i < k + |xs| && j >= k + |xs| {
        assert r[i] == xs[i - k] && r[j] == s[j - |xs|];
        assert s[j - |xs|] in s;
      } else if i < k && j >= k + |xs| {
        assert r[i] == s[i] && r[j] == s[j - |xs|];
        NoDupAt(s, i, j - |xs|);
      } else if j < k {
        assert r[i] == s[i] && r[j] == s[j];
        NoDupAt(s, i, j);
      } else if i >= k + |xs| {
        assert r[i] == s[i - |xs|] && r[j] == s[j - |xs|];
        NoDupAt(s, i - |xs|, j - |xs|);
      } else {
        assert r[i] == xs[i - k] && r[j] == xs[j - k];
        NoDupAt(xs, i - k, j - k);
      }
    }
  }

  /** Replacing the element at `k` by one that does not occur keeps a
      duplicate-free sequence duplicate-free. */
  lemma ReplaceNoDup<T(!new)>(s: seq<T>, k: nat, x: T)
    requires k < |s| && NoDup(s) && x !in s
    ensures NoDup(s[..k] + [x] + s[k + 1..])
  {
    var r := s[..k] + [x] + s[k + 1..];
    assert |r| == |s|;
    forall i | 0 <= i < |r| ensures r[i] == if i == k then x else s[i] { }
    forall i, j | 0 <= i < j < |r| ensures r[i] != r[j] {
      if i == k { assert s[j] in s; } else if j == k { assert s[i] in s; } else { NoDupAt(s, i, j); }
    }
  }

  /** Extending a prefix by one element. */
  lemma PrefixStep<T(!new)>(xs: seq<T>, i: nat)
    requires i < |xs|
    ensures xs[..i + 1] == xs[..i] + [xs[i]]
    ensures Elems(xs[..i + 1]) == Elems(xs[..i]) + {xs[i]}
    ensures NoDup(xs) ==> xs[i] !in xs[..i]
  {
    assert xs[..i + 1] == xs[..i] + [xs[i]];
    if NoDup(xs) {
      forall k | 0 <= k < i ensures xs[..i][k] != xs[i] { assert xs[..i][k] == xs[k]; NoDupAt(xs, k, i); }
    }
  }

  /** Inserting at the last position is appending. */
  lemma InsertAtEnd<T>(s: seq<T>, x: T)
    ensures s[..|s|] + [x] + s[|s|..] == s + [x]
  {
    assert s[..|s|] == s && s[|s|..] == [];
  }

  /** `s` with `x` placed just before the first occurrence of `ref`. */
  function InsertedBefore<T(==)>(s: seq<T>, ref: T, x: T): (r: seq<T>)
    requires ref in s
    ensures |r| == |s| + 1 && r[IndexOf(s, ref)] == x && r[IndexOf(s, ref) + 1] == ref
  {
    var i := IndexOf(s, ref);
    s[..i] + [x] + s[i..]
  }

  /** `s` with the run `xs` placed just after the first occurrence of `ref`. */
  function InsertedAfter<T(==)>(s: seq<T>, ref: T, xs: seq<T>): (r: seq<T>)
    requires ref in s
    ensures |r| == |s| + |xs|
    ensures var i := IndexOf(s, ref); r[..i + 1] == s[..i + 1] && r[i + 1..i + 1 + |xs|] == xs
  {
    var i := IndexOf(s, ref);
    s[..i + 1] + xs + s[i + 1..]
  }

  /** `s` with the first occurrence of `old_` replaced by `x`. */
  function Replaced<T(==)>(s: seq<T>, old_: T, x: T): (r: seq<T>)
    requires old_ in s
    ensures |r| == |s| && r[IndexOf(s, old_)] == x
    ensures forall k :: 0 <= k < |s| && k != IndexOf(s, old_) ==> r[k] == s[k]
  {
    var i := IndexOf(s, old_);
    s[..i] + [x] + s[i + 1..]
  }

  /** Removing the element at a position of a duplicate-free sequence. */
  lemma ExceptAt<T(!new)>(s: seq<T>, i: nat)
    requires NoDup(s) && i < |s|
    ensures Except(s, {s[i]}) == s[..i] + s[i + 1..]
  {
    var before, after := s[..i], s[i + 1..];
    assert s == before + [s[i]] + after;
    SeparateParts(before, [s[i]], after);
    assert s[i] in Elems([s[i]]);
    DropOne(s[..i], s[i], s[i + 1..]);
  }

  /** Putting `x` at position `i` of the sequence with position `i` removed. */
  lemma PutAt<T>(s: seq<T>, i: nat, x: T)
    requires i < |s|
    ensures var t := s[..i] + s[i + 1..]; t[..i] + [x] + t[i..] == s[..i] + [x] + s[i + 1..]
  {
    var t := s[..i] + s[i + 1..];
    assert t[..i] == s[..i];
    assert t[i..] == s[i + 1..];
  }

  lemma SplitEnds<T>(s: seq<T>)
    ensures s[..|s|] == s
  {
  }

  lemma RunStart<T>(s: seq<T>, j: nat, xs: seq<T>)
    requires j <= |s|
    ensures s[..j] + xs[..0] + s[j..] == s
  {
    assert xs[..0] == [];
    assert s[..j] + s[j..] == s;
  }

  /** One step of placing a run after a fixed position. */
  lemma RunStep<T>(s: seq<T>, j: nat, xs: seq<T>, k: nat)
    requires j <= |s| && k < |xs|
    ensures var t := s[..j] + xs[..k] + s[j..];
      && j + k <= |t|
      && t[..j + k] + [xs[k]] + t[j + k..] == s[..j] + xs[..k + 1] + s[j..]
  {
    var t := s[..j] + xs[..k] + s[j..];
    assert t[..j + k] == s[..j] + xs[..k];
    assert t[j + k..] == s[j..];
    assert xs[..k + 1] == xs[..k] + [xs[k]];
  }

  /** Dropping the first element of a suffix. */
  lemma SuffixStep<T>(xs: seq<T>, i: nat)
    requires i < |xs|
    ensures xs[i..] == [xs[i]] + xs[i + 1..]
    ensures NoDup(xs) ==> xs[i] !in xs[i + 1..]
  {
    if NoDup(xs) {
      forall m | i < m < |xs| ensures xs[m] != xs[i] { NoDupAt(xs, i, m); }
    }
  }

  /** Hiding a contiguous run and showing it again gives back the original
      child list. */
  lemma HideShowRoundTrip<T(!new)>(before: seq<T>, nodes: seq<T>, after: seq<T>, ph: T)
    requires nodes != []
    requires NoDup(before + nodes + after)
    requires ph !in before + nodes + after
    ensures var hidden := HideSeq(before + nodes + after, nodes, ph);
      ph in hidden && ShowSeq(hidden, nodes, ph) == before + nodes + after
  {
    HideInPlace(before, nodes, after, ph);
    ShowInPlace(before, nodes, after, ph);
  }
}
