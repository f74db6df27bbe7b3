/**
 Editing a radix tree in place, top down: a descent follows the digits of a key, and at every
 node on the way replaces the child it is about to enter. The tree hanging from the root stays
 whole at each step, and whatever happens to the subtree at the end of the path happens to it.
 */
module RadixPath {
  import opened Pages
  import opened RadixTree

  /** Following the digits of `k` from `p` at level `l` leads to `c` at `level`, with `rem` left of the key. */
  ghost predicate On<V>(s: Shape<V>, h: Heap<V>, p: nat, l: nat, k: nat, c: nat, level: nat, rem: nat)
    decreases l
  {
    if l <= level then l == level && p == c && k == rem
    else
      && p != 0 && p in h && h[p].Interior? && |h[p].children| == FANOUT
      && Digit(k, Cap(s.leafCap, l - 1)) < FANOUT
      && On(s, h, h[p].children[Digit(k, Cap(s.leafCap, l - 1))], l - 1, Rem(k, Cap(s.leafCap, l - 1)), c, level, rem)
  }

  /** The end of a path is a tree, inside the tree the path starts from. */
  lemma {:induction false} OnTree<V>(s: Shape<V>, h: Heap<V>, p: nat, l: nat, k: nat, c: nat, level: nat, rem: nat)
    requires On(s, h, p, l, k, c, level, rem) && Tree(s, h, p, l)
    ensures Tree(s, h, c, level) && Reach(h, c, level) <= Reach(h, p, l)
    decreases l
  {
    if l > level {
      var i := Digit(k, Cap(s.leafCap, l - 1));
      KidIsTree(s, h, p, l, i);
      OnTree(s, h, h[p].children[i], l - 1, Rem(k, Cap(s.leafCap, l - 1)), c, level, rem);
    }
  }

  /** A path can be extended by one digit. */
  lemma {:induction false} OnStep<V>(s: Shape<V>, h: Heap<V>, p: nat, l: nat, k: nat, c: nat, level: nat, rem: nat)
    requires On(s, h, p, l, k, c, level, rem) && level > 0
    requires c != 0 && c in h && h[c].Interior? && |h[c].children| == FANOUT
    requires Digit(rem, Cap(s.leafCap, level - 1)) < FANOUT
    ensures On(s, h, p, l, k, h[c].children[Digit(rem, Cap(s.leafCap, level - 1))], level - 1, Rem(rem, Cap(s.leafCap, level - 1)))
    decreases l
  {
    if l > level {
      OnStep(s, h, h[p].children[Digit(k, Cap(s.leafCap, l - 1))], l - 1, Rem(k, Cap(s.leafCap, l - 1)), c, level, rem);
    }
  }

  /** The subtree at `c` changed into another tree, disjoint from the rest of the tree it hangs in. */
  ghost predicate Swapped<V>(s: Shape<V>, h0: Heap<V>, p: nat, l: nat, c: nat, level: nat, h1: Heap<V>) {
    && Untouched(h0, h1, Reach(h0, p, l) - Reach(h0, c, level))
    && Tree(s, h1, c, level)
    && Reach(h1, c, level) !! Reach(h0, p, l) - Reach(h0, c, level)
  }

  lemma SwappedKid<V>(s: Shape<V>, h0: Heap<V>, p: nat, l: nat, i: nat, c: nat, level: nat, h1: Heap<V>)
    requires l > 0 && p != 0 && Tree(s, h0, p, l) && i < FANOUT
    requires Reach(h0, c, level) <= KidReach(h0, p, l, i) && Swapped(s, h0, p, l, c, level, h1)
    ensures Swapped(s, h0, h0[p].children[i], l - 1, c, level, h1)
    ensures p in h1 && h1[p] == h0[p]
  {
    hide Tree;
    NodeThere(s, h0, p, l, i);
    assert p in Reach(h0, p, l);
    assert KidReach(h0, p, l, i) <= Reach(h0, p, l);
    assert SameAt(h0, h1, p);
  }

  lemma NodeThere<V>(s: Shape<V>, h: Heap<V>, p: nat, l: nat, i: nat)
    requires l > 0 && p != 0 && Tree(s, h, p, l) && i < FANOUT
    ensures p in h && h[p].Interior? && |h[p].children| == FANOUT && p !in KidReach(h, p, l, i)
  {
  }

  /** Swapping the subtree at the end of a path swaps its pages in the whole tree, and keeps the path. */
  lemma {:induction false} Swap<V>(s: Shape<V>, h0: Heap<V>, p: nat, l: nat, k: nat, c: nat, level: nat, rem: nat, h1: Heap<V>)
    requires On(s, h0, p, l, k, c, level, rem) && Tree(s, h0, p, l) && Swapped(s, h0, p, l, c, level, h1)
    ensures Tree(s, h1, p, l) && On(s, h1, p, l, k, c, level, rem)
    ensures Reach(h1, p, l) == Reach(h0, p, l) - Reach(h0, c, level) + Reach(h1, c, level)
    decreases l
  {
    if l > level {
      var i := Digit(k, Cap(s.leafCap, l - 1));
      var kid := h0[p].children[i];
      SwapStep(s, h0, p, l, k, c, level, rem, h1);
      Swap(s, h0, kid, l - 1, Rem(k, Cap(s.leafCap, l - 1)), c, level, rem, h1);
      SwapUp(s, h0, p, l, i, c, level, h1);
    }
  }

  lemma SwapStep<V>(s: Shape<V>, h0: Heap<V>, p: nat, l: nat, k: nat, c: nat, level: nat, rem: nat, h1: Heap<V>)
    requires l > level && On(s, h0, p, l, k, c, level, rem) && Tree(s, h0, p, l) && Swapped(s, h0, p, l, c, level, h1)
    ensures Tree(s, h0, h0[p].children[Digit(k, Cap(s.leafCap, l - 1))], l - 1)
    ensures Reach(h0, c, level) <= KidReach(h0, p, l, Digit(k, Cap(s.leafCap, l - 1)))
    ensures Swapped(s, h0, h0[p].children[Digit(k, Cap(s.leafCap, l - 1))], l - 1, c, level, h1)
    ensures p in h1 && h1[p] == h0[p]
  {
    var i := Digit(k, Cap(s.leafCap, l - 1));
    KidIsTree(s, h0, p, l, i);
    OnTree(s, h0, h0[p].children[i], l - 1, Rem(k, Cap(s.leafCap, l - 1)), c, level, rem);
    SwappedKid(s, h0, p, l, i, c, level, h1);
  }

  lemma SwapUp<V>(s: Shape<V>, h0: Heap<V>, p: nat, l: nat, i: nat, c: nat, level: nat, h1: Heap<V>)
    requires l > 0 && p != 0 && Tree(s, h0, p, l) && i < FANOUT
    requires Reach(h0, c, level) <= KidReach(h0, p, l, i) && Swapped(s, h0, p, l, c, level, h1)
    requires p in h1 && h1[p] == h0[p]
    requires Tree(s, h1, h0[p].children[i], l - 1)
    requires Reach(h1, h0[p].children[i], l - 1) == KidReach(h0, p, l, i) - Reach(h0, c, level) + Reach(h1, c, level)
    ensures Tree(s, h1, p, l)
    ensures Reach(h1, p, l) == Reach(h0, p, l) - Reach(h0, c, level) + Reach(h1, c, level)
  {
    var kid := h0[p].children[i];
    NodeThere(s, h0, p, l, i);
    assert KidReach(h0, p, l, i) <= Reach(h0, p, l) && p in Reach(h0, p, l);
    assert h0[p].children[i := kid] == h0[p].children;
    hide Tree, Reach;
    assert Untouched(h0, h1, Reach(h0, p, l) - {p} - KidReach(h0, p, l, i));
    Relink(s, h0, p, l, h1, p, i, kid);
  }

  /** If the swapped subtree means the same, so does the whole tree. */
  lemma {:induction false} SwapSame<V>(s: Shape<V>, h0: Heap<V>, p: nat, l: nat, k: nat, c: nat, level: nat, rem: nat, h1: Heap<V>)
    requires On(s, h0, p, l, k, c, level, rem) && Tree(s, h0, p, l) && Swapped(s, h0, p, l, c, level, h1)
    requires SameValues(s, h0, c, level, h1, c, level)
    ensures SameValues(s, h0, p, l, h1, p, l)
    decreases l
  {
    if l > level {
      var span := Cap(s.leafCap, l - 1);
      var i := Digit(k, span);
      var kid := h0[p].children[i];
      SwapStep(s, h0, p, l, k, c, level, rem, h1);
      SwapSame(s, h0, kid, l - 1, Rem(k, span), c, level, rem, h1);
      forall j: nat ensures Get(s, h1, p, l, j) == Get(s, h0, p, l, j) {
        SwapGet(s, h0, p, l, i, c, level, h1, j);
        if Digit(j, span) == i {
          assert Get(s, h1, kid, l - 1, Rem(j, span)) == Get(s, h0, kid, l - 1, Rem(j, span));
        }
      }
    }
  }

  /** If the swapped subtree stores `v` at what is left of the key, the whole tree stores it at the key. */
  lemma {:induction false} SwapPut<V>(s: Shape<V>, h0: Heap<V>, p: nat, l: nat, k: nat, c: nat, level: nat, rem: nat, h1: Heap<V>, v: V)
    requires On(s, h0, p, l, k, c, level, rem) && Tree(s, h0, p, l) && Swapped(s, h0, p, l, c, level, h1)
    requires PutAt(s, h0, c, level, h1, c, level, rem, v)
    ensures PutAt(s, h0, p, l, h1, p, l, k, v)
    decreases l
  {
    if l > level {
      var span := Cap(s.leafCap, l - 1);
      var i := Digit(k, span);
      var kid := h0[p].children[i];
      SwapStep(s, h0, p, l, k, c, level, rem, h1);
      SwapPut(s, h0, kid, l - 1, Rem(k, span), c, level, rem, h1, v);
      forall j: nat ensures Get(s, h1, p, l, j) == if j == k then v else Get(s, h0, p, l, j) {
        SwapGet(s, h0, p, l, i, c, level, h1, j);
        DigitsUnique(j, k, span);
        if Digit(j, span) == i {
          assert Get(s, h1, kid, l - 1, Rem(j, span))
              == if Rem(j, span) == Rem(k, span) then v else Get(s, h0, kid, l - 1, Rem(j, span));
        }
      }
    }
  }

  lemma SwapGet<V>(s: Shape<V>, h0: Heap<V>, p: nat, l: nat, i: nat, c: nat, level: nat, h1: Heap<V>, j: nat)
    requires l > 0 && p != 0 && Tree(s, h0, p, l) && i < FANOUT
    requires Reach(h0, c, level) <= KidReach(h0, p, l, i) && Swapped(s, h0, p, l, c, level, h1)
    requires p in h1 && h1[p] == h0[p]
    ensures Digit(j, Cap(s.leafCap, l - 1)) != i ==> Get(s, h1, p, l, j) == Get(s, h0, p, l, j)
    ensures Digit(j, Cap(s.leafCap, l - 1)) == i ==>
              && Get(s, h1, p, l, j) == Get(s, h1, h0[p].children[i], l - 1, Rem(j, Cap(s.leafCap, l - 1)))
              && Get(s, h0, p, l, j) == Get(s, h0, h0[p].children[i], l - 1, Rem(j, Cap(s.leafCap, l - 1)))
  {
    var kid := h0[p].children[i];
    assert h0[p].children[i := kid] == h0[p].children;
    assert Untouched(h0, h1, Reach(h0, p, l) - {p} - KidReach(h0, p, l, i));
    RelinkGet(s, h0, p, l, h1, p, i, kid, j);
  }

  // ----- one step of the descent -----

  /** `n` holds a copy of the node at `c`: same subtree below, same values, one page exchanged. */
  lemma CopyNode<V>(s: Shape<V>, h0: Heap<V>, c: nat, level: nat, h1: Heap<V>, n: nat)
    requires c != 0 && Tree(s, h0, c, level) && n != 0 && n !in Reach(h0, c, level)
    requires Untouched(h0, h1, Reach(h0, c, level) - {c}) && n in h1 && h1[n] == h0[c]
    ensures Tree(s, h1, n, level) && Reach(h1, n, level) == Reach(h0, c, level) - {c} + {n}
    ensures SameValues(s, h0, c, level, h1, n, level)
  {
    if level > 0 {
      var kid := h0[c].children[0];
      assert h0[c].children[0 := kid] == h0[c].children;
      KidIsTree(s, h0, c, level, 0);
      NodeThere(s, h0, c, level, 0);
      assert Untouched(h0, h1, Reach(h0, kid, level - 1));
      FrameAll(s, h0, h1, kid, level - 1);
      assert KidReach(h0, c, level, 0) == Reach(h1, kid, level - 1);
      Relink(s, h0, c, level, h1, n, 0, kid);
      forall k: nat ensures Get(s, h1, n, level, k) == Get(s, h0, c, level, k) {
        RelinkGet(s, h0, c, level, h1, n, 0, kid, k);
        if Digit(k, Cap(s.leafCap, level - 1)) == 0 {
          assert Get(s, h1, kid, level - 1, Rem(k, Cap(s.leafCap, level - 1)))
              == Get(s, h0, kid, level - 1, Rem(k, Cap(s.leafCap, level - 1)));
        }
      }
    }
  }

  /** The page the descent put in place of a child: an empty node where there was none, a copy otherwise. */
  ghost predicate Replaces<V>(s: Shape<V>, h0: Heap<V>, x: nat, level: nat, h1: Heap<V>, n: nat) {
    if x == 0 then EmptyNode(s, h1, n, level) else x in h0 && n in h1 && h1[n] == h0[x]
  }

  ghost function Page(x: nat): set<nat> {
    if x == 0 then {} else {x}
  }

  /** The replaced child means the same and occupies the same pages, but for its own. */
  lemma ReplacedKid<V>(s: Shape<V>, h0: Heap<V>, cur: nat, level: nat, i: nat, h1: Heap<V>, n: nat)
    requires level > 0 && cur != 0 && Tree(s, h0, cur, level) && i < FANOUT
    requires n != 0 && n !in Reach(h0, cur, level) && Untouched(h0, h1, Reach(h0, cur, level) - {cur})
    requires Replaces(s, h0, h0[cur].children[i], level - 1, h1, n)
    ensures Tree(s, h1, n, level - 1)
    ensures Reach(h1, n, level - 1) == KidReach(h0, cur, level, i) - Page(h0[cur].children[i]) + {n}
    ensures Page(h0[cur].children[i]) <= KidReach(h0, cur, level, i) <= Reach(h0, cur, level) - {cur}
    ensures SameValues(s, h0, h0[cur].children[i], level - 1, h1, n, level - 1)
  {
    var x := h0[cur].children[i];
    KidIsTree(s, h0, cur, level, i);
    NodeThere(s, h0, cur, level, i);
    assert KidReach(h0, cur, level, i) == Reach(h0, x, level - 1);
    if x == 0 {
      EmptyNodeIsTree(s, h1, n, level - 1);
    } else {
      assert x in Reach(h0, x, level - 1);
      hide Tree, Reach;
      CopyNode(s, h0, x, level - 1, h1, n);
    }
  }

  /** Pointing a node on the path at the replacement of its child changes one page and no value. */
  lemma NodeStep<V>(s: Shape<V>, h0: Heap<V>, cur: nat, level: nat, i: nat, h1: Heap<V>, n: nat)
    requires level > 0 && cur != 0 && Tree(s, h0, cur, level) && i < FANOUT
    requires n != 0 && n !in Reach(h0, cur, level) && Untouched(h0, h1, Reach(h0, cur, level) - {cur})
    requires Replaces(s, h0, h0[cur].children[i], level - 1, h1, n)
    requires cur in h1 && h1[cur] == Interior(h0[cur].children[i := n])
    ensures Tree(s, h1, cur, level) && SameValues(s, h0, cur, level, h1, cur, level)
    ensures Reach(h1, cur, level) == Reach(h0, cur, level) - Page(h0[cur].children[i]) + {n}
  {
    var x := h0[cur].children[i];
    assert cur in Reach(h0, cur, level);
    ReplacedKid(s, h0, cur, level, i, h1, n);
    hide Tree, Reach, Replaces, EmptyNode, SameValues;
    Relink(s, h0, cur, level, h1, cur, i, n);
    assert Reach(h1, cur, level) == Reach(h0, cur, level) - Page(x) + {n};
    NodeStepSame(s, h0, cur, level, i, h1, n);
  }

  lemma NodeStepSame<V>(s: Shape<V>, h0: Heap<V>, cur: nat, level: nat, i: nat, h1: Heap<V>, n: nat)
    requires level > 0 && cur != 0 && Tree(s, h0, cur, level) && i < FANOUT
    requires Untouched(h0, h1, Reach(h0, cur, level) - {cur})
    requires cur in h1 && h1[cur] == Interior(h0[cur].children[i := n])
    requires SameValues(s, h0, h0[cur].children[i], level - 1, h1, n, level - 1)
    ensures SameValues(s, h0, cur, level, h1, cur, level)
  {
    forall k: nat ensures Get(s, h1, cur, level, k) == Get(s, h0, cur, level, k) {
      RelinkGet(s, h0, cur, level, h1, cur, i, n, k);
      var rem := Rem(k, Cap(s.leafCap, level - 1));
      assert Get(s, h1, n, level - 1, rem) == Get(s, h0, h0[cur].children[i], level - 1, rem);
    }
  }

  /**
   One step of the descent. The whole tree keeps its meaning, one page is exchanged for
   another (or added where a subtree was absent), and the path now leads to the new page.
   */
  lemma PathStep<V>(s: Shape<V>, h0: Heap<V>, root: nat, depth: nat, key: nat, cur: nat, level: nat, rem: nat, h1: Heap<V>, n: nat)
    requires On(s, h0, root, depth, key, cur, level, rem) && Tree(s, h0, root, depth) && level > 0
    requires cur != 0 && cur in h0 && h0[cur].Interior? && |h0[cur].children| == FANOUT
    requires Digit(rem, Cap(s.leafCap, level - 1)) < FANOUT
    requires n != 0 && n != cur && n !in Reach(h0, root, depth) && Wrote(h0, h1, {n, cur})
    requires Replaces(s, h0, h0[cur].children[Digit(rem, Cap(s.leafCap, level - 1))], level - 1, h1, n)
    requires cur in h1 && h1[cur] == Interior(h0[cur].children[Digit(rem, Cap(s.leafCap, level - 1)) := n])
    ensures Tree(s, h1, root, depth) && SameValues(s, h0, root, depth, h1, root, depth)
    ensures Reach(h1, root, depth)
         == Reach(h0, root, depth) - Page(h0[cur].children[Digit(rem, Cap(s.leafCap, level - 1))]) + {n}
    ensures Page(h0[cur].children[Digit(rem, Cap(s.leafCap, level - 1))]) <= Reach(h0, root, depth) - {cur}
    ensures On(s, h1, root, depth, key, n, level - 1, Rem(rem, Cap(s.leafCap, level - 1)))
  {
    var i := Digit(rem, Cap(s.leafCap, level - 1));
    OnTree(s, h0, root, depth, key, cur, level, rem);
    assert cur in Reach(h0, cur, level);
    hide Tree, Reach, On, Replaces, EmptyNode, SameValues, Digit, Rem, Cap, Wrote, Untouched;
    WroteKeeps(h0, h1, {n, cur}, Reach(h0, cur, level) - {cur});
    WroteKeeps(h0, h1, {n, cur}, Reach(h0, root, depth) - Reach(h0, cur, level));
    ReplacedKid(s, h0, cur, level, i, h1, n);
    NodeStep(s, h0, cur, level, i, h1, n);
    assert Swapped(s, h0, root, depth, cur, level, h1);
    Swap(s, h0, root, depth, key, cur, level, rem, h1);
    SwapSame(s, h0, root, depth, key, cur, level, rem, h1);
    OnStep(s, h1, root, depth, key, cur, level, rem);
  }

  /** Writing one slot of the leaf at the end of the path stores the value at the key. */
  lemma PathLeaf<V>(s: Shape<V>, h0: Heap<V>, root: nat, depth: nat, key: nat, cur: nat, rem: nat, v: V, h1: Heap<V>)
    requires On(s, h0, root, depth, key, cur, 0, rem) && Tree(s, h0, root, depth) && rem < s.leafCap
    requires cur != 0 && cur in h0 && h0[cur].Leaf?
    requires Wrote(h0, h1, {cur}) && cur in h1 && |h0[cur].slots| == s.leafCap && h1[cur] == Leaf(h0[cur].slots[rem := v])
    ensures Tree(s, h1, root, depth) && Reach(h1, root, depth) == Reach(h0, root, depth)
    ensures PutAt(s, h0, root, depth, h1, root, depth, key, v)
  {
    OnTree(s, h0, root, depth, key, cur, 0, rem);
    assert Tree(s, h1, cur, 0) && Reach(h1, cur, 0) == {cur} == Reach(h0, cur, 0);
    assert PutAt(s, h0, cur, 0, h1, cur, 0, rem, v);
    hide Tree, Reach, On, PutAt;
    Swap(s, h0, root, depth, key, cur, 0, rem, h1);
    SwapPut(s, h0, root, depth, key, cur, 0, rem, h1, v);
  }
}
