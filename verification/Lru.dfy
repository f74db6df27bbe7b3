/**
 The cache's recency index: a doubly linked list threaded through a hash map. It refines a
 duplicate-free sequence, most recently used first.
 */
module Lru {
  import opened Pages

  datatype Node = Node(prev: Option<nat>, next: Option<nat>)

  ghost predicate NoDuplicates(s: seq<nat>) {
    forall i, j | 0 <= i < j < |s| :: s[i] != s[j]
  }

  ghost function Members(s: seq<nat>): set<nat> {
    set x | x in s
  }

  /** `s` without `id`, the rest in order. */
  ghost function Without(s: seq<nat>, id: nat): seq<nat> {
    if s == [] then [] else if s[0] == id then Without(s[1..], id) else [s[0]] + Without(s[1..], id)
  }

  ghost function Reversed(s: seq<nat>): seq<nat> {
    if s == [] then [] else Reversed(s[1..]) + [s[0]]
  }

  ghost function At(s: seq<nat>, i: int): Option<nat> {
    if 0 <= i < |s| then Some(s[i]) else None
  }

  /** The pointers of `nodes` spell out `order`; `nodes` may hold more. */
  ghost predicate Linked(head: Option<nat>, tail: Option<nat>, nodes: map<nat, Node>, order: seq<nat>) {
    && NoDuplicates(order) && head == At(order, 0) && tail == At(order, |order| - 1)
    && forall i | 0 <= i < |order| :: order[i] in nodes && nodes[order[i]] == Node(At(order, i - 1), At(order, i + 1))
  }

  lemma {:induction false} WithoutAbsent(s: seq<nat>, id: nat)
    requires id !in s
    ensures Without(s, id) == s
  {
    if s != [] {
      WithoutAbsent(s[1..], id);
    }
  }

  lemma {:induction false} WithoutAt(s: seq<nat>, k: nat)
    requires NoDuplicates(s) && k < |s|
    ensures Without(s, s[k]) == s[..k] + s[k + 1..]
  {
    if k == 0 {
      assert s[k] !in s[1..];
      WithoutAbsent(s[1..], s[k]);
    } else {
      WithoutAt(s[1..], k - 1);
      assert s[1..][k - 1] == s[k];
      assert s[..k] + s[k + 1..] == [s[0]] + (s[1..][..k - 1] + s[1..][k..]);
    }
  }

  lemma PrefixDistinct(s: seq<nat>, n: nat)
    requires NoDuplicates(s) && n <= |s|
    ensures NoDuplicates(s[..n])
  {
  }

  lemma {:induction false} WithoutMembers(s: seq<nat>, id: nat)
    ensures forall x :: x in Without(s, id) <==> x in s && x != id
    ensures NoDuplicates(s) ==> NoDuplicates(Without(s, id))
  {
    if s != [] {
      WithoutMembers(s[1..], id);
      if NoDuplicates(s) {
        assert s[0] !in s[1..];
      }
    }
  }

  lemma {:induction false} ReversedAt(s: seq<nat>, k: nat)
    ensures |Reversed(s)| == |s|
    ensures k < |s| ==> Reversed(s)[k] == s[|s| - 1 - k]
  {
    if s != [] {
      ReversedAt(s[1..], k);
    }
  }

  lemma {:induction false} ReversedLast(s: seq<nat>)
    requires s != []
    ensures Reversed(s) == [s[|s| - 1]] + Reversed(s[..|s| - 1])
  {
    if |s| > 1 {
      ReversedLast(s[1..]);
      assert s[1..][..|s| - 2] == s[..|s| - 1][1..];
    }
  }

  /** Node `q` after the neighbours of `order[k]` were patched to skip it. */
  ghost function Patched(order: seq<nat>, k: nat, q: nat, node: Node): Node {
    Node(if At(order, k + 1) == Some(q) then At(order, k - 1) else node.prev,
         if At(order, k - 1) == Some(q) then At(order, k + 1) else node.next)
  }

  /** Patching the neighbours of `order[k]` takes it out of the list. */
  lemma Unlinked(nodes: map<nat, Node>, order: seq<nat>, k: nat, h: Option<nat>, t: Option<nat>, nodes': map<nat, Node>)
    requires Linked(At(order, 0), At(order, |order| - 1), nodes, order) && k < |order|
    requires h == if k == 0 then At(order, 1) else At(order, 0)
    requires t == if k == |order| - 1 then At(order, k - 1) else At(order, |order| - 1)
    requires nodes'.Keys == nodes.Keys
    requires forall q | q in nodes :: nodes'[q] == Patched(order, k, q, nodes[q])
    ensures Linked(h, t, nodes', order[..k] + order[k + 1..])
  {
    hide Patched, NoDuplicates, At;
    var s := order[..k] + order[k + 1..];
    StillDistinct(order, k);
    forall i | 0 <= i < |s| ensures s[i] in nodes' && nodes'[s[i]] == Node(At(s, i - 1), At(s, i + 1)) {
      var j := if i < k then i else i + 1;
      assert s[i] == order[j] && order[j] in nodes;
      PatchedAt(order, k, i);
    }
    EndsAfter(order, k);
  }

  lemma EndsAfter(order: seq<nat>, k: nat)
    requires k < |order|
    ensures var s := order[..k] + order[k + 1..];
            && At(s, 0) == (if k == 0 then At(order, 1) else At(order, 0))
            && At(s, |s| - 1) == (if k == |order| - 1 then At(order, k - 1) else At(order, |order| - 1))
  {
  }

  lemma StillDistinct(order: seq<nat>, k: nat)
    requires NoDuplicates(order) && k < |order|
    ensures NoDuplicates(order[..k] + order[k + 1..])
  {
  }

  lemma PatchedAt(order: seq<nat>, k: nat, i: nat)
    requires NoDuplicates(order) && k < |order| && i < |order| - 1
    ensures var s := order[..k] + order[k + 1..];
            var j := if i < k then i else i + 1;
            Patched(order, k, order[j], Node(At(order, j - 1), At(order, j + 1))) == Node(At(s, i - 1), At(s, i + 1))
  {
  }

  lemma Dropped(head: Option<nat>, tail: Option<nat>, nodes: map<nat, Node>, order: seq<nat>, id: nat)
    requires Linked(head, tail, nodes, order) && id !in order
    ensures Linked(head, tail, nodes - {id}, order)
  {
  }

  lemma LinkFront(head: Option<nat>, tail: Option<nat>, nodes: map<nat, Node>, order: seq<nat>, id: nat, nodes': map<nat, Node>)
    requires Linked(head, tail, nodes, order) && id !in order && id in nodes'
    requires nodes'[id] == Node(None, head)
    requires forall q | q in nodes && q != id ::
               q in nodes' && nodes'[q] == if head == Some(q) then Node(Some(id), nodes[q].next) else nodes[q]
    ensures Linked(Some(id), if tail.None? then Some(id) else tail, nodes', [id] + order)
  {
    var s := [id] + order;
    forall i | 0 <= i < |s| ensures s[i] in nodes' && nodes'[s[i]] == Node(At(s, i - 1), At(s, i + 1)) {
      if i > 0 {
        assert s[i] == order[i - 1] && order[i - 1] in nodes;
      }
    }
  }

  lemma LinkBack(head: Option<nat>, tail: Option<nat>, nodes: map<nat, Node>, order: seq<nat>, id: nat, nodes': map<nat, Node>)
    requires Linked(head, tail, nodes, order) && id !in order && id in nodes'
    requires nodes'[id] == Node(tail, None)
    requires forall q | q in nodes && q != id ::
               q in nodes' && nodes'[q] == if tail == Some(q) then Node(nodes[q].prev, Some(id)) else nodes[q]
    ensures Linked(if head.None? then Some(id) else head, Some(id), nodes', order + [id])
  {
    var s := order + [id];
    forall i | 0 <= i < |s| ensures s[i] in nodes' && nodes'[s[i]] == Node(At(s, i - 1), At(s, i + 1)) {
      if i < |order| {
        assert s[i] == order[i] && order[i] in nodes;
      }
    }
  }

  class LruIndex {
    var head: Option<nat>
    var tail: Option<nat>
    var nodes: map<nat, Node>
    ghost var order: seq<nat>

    ghost predicate Valid()
      reads this
    {
      Linked(head, tail, nodes, order) && nodes.Keys == Members(order)
    }

    constructor ()
      ensures Valid() && order == []
    {
      head, tail, nodes, order := None, None, map[], [];
    }

    lemma OrderDistinct()
      requires Valid()
      ensures NoDuplicates(order)
    {
    }

    method Contains(id: nat) returns (r: bool)
      requires Valid()
      ensures r <==> id in order
    {
      return id in nodes;
    }

    /** Take `id` out of the list but leave its entry in `nodes`. */
    method Unlink(id: nat)
      requires Valid()
      modifies this
      ensures Linked(head, tail, nodes, order) && nodes.Keys == old(nodes.Keys)
      ensures order == Without(old(order), id)
    {
      hide Linked, NoDuplicates, Without;
      if id !in nodes {
        WithoutAbsent(order, id);
        return;
      }
      ghost var k: nat :| k < |order| && order[k] == id;
      ghost var nodes0 := nodes;
      LinkFacts(head, tail, nodes, order, k);
      var node := nodes[id];
      match node.prev {
        case Some(p) =>
          if p in nodes { nodes := nodes[p := nodes[p].(next := node.next)]; }
        case None =>
          head := node.next;
      }
      match node.next {
        case Some(n) =>
          if n in nodes { nodes := nodes[n := nodes[n].(prev := node.prev)]; }
        case None =>
          tail := node.prev;
      }
      Unlinked(nodes0, order, k, head, tail, nodes);
      WithoutAt(order, k);
      order := order[..k] + order[k + 1..];
    }

    /** Make `id` the most recently used. */
    method PushFront(id: nat)
      requires Valid()
      modifies this
      ensures Valid() && order == [id] + Without(old(order), id)
    {
      hide Linked, NoDuplicates, Without;
      WithoutMembers(order, id);
      if id in nodes {
        Unlink(id);
      } else {
        WithoutAbsent(order, id);
      }
      ghost var nodes0, head0, tail0 := nodes, head, tail;
      LinkEnds(head, tail, nodes, order);
      var newNode := Node(None, head);
      match head {
        case Some(h) =>
          if h in nodes { nodes := nodes[h := nodes[h].(prev := Some(id))]; }
        case None =>
          tail := Some(id);
      }
      nodes := nodes[id := newNode];
      head := Some(id);
      LinkFront(head0, tail0, nodes0, order, id, nodes);
      order := [id] + order;
    }

    /** Make `id` the least recently used. */
    method PushBack(id: nat)
      requires Valid()
      modifies this
      ensures Valid() && order == Without(old(order), id) + [id]
    {
      hide Linked, NoDuplicates, Without;
      WithoutMembers(order, id);
      if id in nodes {
        Unlink(id);
      } else {
        WithoutAbsent(order, id);
      }
      ghost var nodes0, head0, tail0 := nodes, head, tail;
      LinkEnds(head, tail, nodes, order);
      var newNode := Node(tail, None);
      match tail {
        case Some(t) =>
          if t in nodes { nodes := nodes[t := nodes[t].(next := Some(id))]; }
        case None =>
          head := Some(id);
      }
      nodes := nodes[id := newNode];
      tail := Some(id);
      LinkBack(head0, tail0, nodes0, order, id, nodes);
      order := order + [id];
    }

    method Remove(id: nat) returns (present: bool)
      requires Valid()
      modifies this
      ensures Valid() && order == Without(old(order), id)
      ensures present <==> id in old(order)
    {
      hide Linked, NoDuplicates, Without;
      WithoutMembers(order, id);
      if id !in nodes {
        WithoutAbsent(order, id);
        return false;
      }
      Unlink(id);
      Dropped(head, tail, nodes, order, id);
      nodes := nodes - {id};
      return true;
    }

    /** Walk the back pointers from the least recently used: the sequence in reverse, each id once. */
    method IterLruToMru() returns (out: seq<nat>)
      requires Valid()
      ensures out == Reversed(order)
    {
      hide Reversed, Linked, NoDuplicates;
      out := [];
      var cursor := tail;
      ghost var n: nat := |order|;
      LinkEnds(head, tail, nodes, order);
      assert order[..n] == order;
      while cursor.Some?
        invariant n <= |order| && cursor == At(order, n - 1)
        invariant Reversed(order) == out + Reversed(order[..n])
        decreases n
      {
        var cur := cursor.value;
        LinkFacts(head, tail, nodes, order, n - 1);
        ReversedLast(order[..n]);
        assert order[..n][..n - 1] == order[..n - 1];
        out := out + [cur];
        cursor := if cur in nodes then nodes[cur].prev else None;
        n := n - 1;
      }
      NothingReversed();
    }
  }

  lemma NothingReversed()
    ensures Reversed([]) == []
  {
  }

  lemma LinkFacts(head: Option<nat>, tail: Option<nat>, nodes: map<nat, Node>, order: seq<nat>, k: nat)
    requires Linked(head, tail, nodes, order) && k < |order|
    ensures order[k] in nodes && nodes[order[k]] == Node(At(order, k - 1), At(order, k + 1))
    ensures head == At(order, 0) && tail == At(order, |order| - 1) && NoDuplicates(order)
    ensures k > 0 ==> order[k - 1] in nodes
    ensures k + 1 < |order| ==> order[k + 1] in nodes && order[k + 1] != order[k]
    ensures 0 < k && k + 1 < |order| ==> order[k - 1] != order[k + 1]
  {
  }

  lemma LinkEnds(head: Option<nat>, tail: Option<nat>, nodes: map<nat, Node>, order: seq<nat>)
    requires Linked(head, tail, nodes, order)
    ensures head.None? <==> order == []
    ensures tail.None? <==> order == []
    ensures head.Some? ==> head.value in nodes
    ensures tail.Some? ==> tail.value in nodes
    ensures tail == At(order, |order| - 1)
  {
  }
}
