/**
 Enumerating a radix tree: the left-to-right walk lists exactly the live keys, each once,
 in ascending order.
 */
module RadixItems {
  import opened Pages
  import opened RadixTree

  /** The live slots among the first `n` of a leaf, as (key, value). */
  ghost function LeafItems<V>(slots: seq<V>, n: nat, base: nat, live: V -> bool): seq<(nat, V)>
    requires n <= |slots|
  {
    if n == 0 then []
    else LeafItems(slots, n - 1, base, live) + if live(slots[n - 1]) then [(base + n - 1, slots[n - 1])] else []
  }

  ghost function Items<V>(s: Shape<V>, h: Heap<V>, p: nat, level: nat, base: nat, live: V -> bool): seq<(nat, V)>
    decreases level, 1, 0
  {
    if p == 0 || p !in h then []
    else if level == 0 then
      if h[p].Leaf? then LeafItems(h[p].slots, |h[p].slots|, base, live) else []
    else if h[p].Interior? then KidItems(s, h, p, level, base, live, |h[p].children|)
    else []
  }

  /** What the first `n` children of `p` list. */
  ghost function KidItems<V>(s: Shape<V>, h: Heap<V>, p: nat, level: nat, base: nat, live: V -> bool, n: nat): seq<(nat, V)>
    requires level > 0 && p in h && h[p].Interior? && n <= |h[p].children|
    decreases level, 0, n
  {
    if n == 0 then []
    else KidItems(s, h, p, level, base, live, n - 1)
         + Items(s, h, h[p].children[n - 1], level - 1, base + (n - 1) * Cap(s.leafCap, level - 1), live)
  }

  ghost predicate Ascending<V>(xs: seq<(nat, V)>) {
    forall i, j | 0 <= i < j < |xs| :: xs[i].0 < xs[j].0
  }

  /** `xs` lists, in order, exactly the live keys of the tree in `[lo, hi)`, offset by `base`. */
  ghost predicate Lists<V>(xs: seq<(nat, V)>, s: Shape<V>, h: Heap<V>, p: nat, level: nat, base: nat, live: V -> bool,
                           lo: nat, hi: nat)
  {
    && Ascending(xs)
    && (forall x | x in xs :: base + lo <= x.0 < base + hi && live(x.1) && x.1 == Get(s, h, p, level, x.0 - base))
    && (forall k: nat | lo <= k < hi && live(Get(s, h, p, level, k)) :: (base + k, Get(s, h, p, level, k)) in xs)
  }

  lemma ListsAppend<V>(xs: seq<(nat, V)>, ys: seq<(nat, V)>, s: Shape<V>, h: Heap<V>, p: nat, level: nat, base: nat,
                       live: V -> bool, a: nat, b: nat)
    requires Lists(xs, s, h, p, level, base, live, 0, a) && Lists(ys, s, h, p, level, base, live, a, b) && a <= b
    ensures Lists(xs + ys, s, h, p, level, base, live, 0, b)
  {
    var zs := xs + ys;
    forall i, j | 0 <= i < j < |zs| ensures zs[i].0 < zs[j].0 {
      if i < |xs| <= j {
        assert xs[i] in xs && ys[j - |xs|] in ys;
      }
    }
    forall x | x in zs
      ensures base <= x.0 < base + b && live(x.1) && x.1 == Get(s, h, p, level, x.0 - base)
    {
      assert x in xs || x in ys;
    }
  }

  lemma {:induction false} LeafLists<V>(s: Shape<V>, h: Heap<V>, p: nat, base: nat, live: V -> bool, n: nat)
    requires p != 0 && Tree(s, h, p, 0) && n <= |h[p].slots|
    ensures Lists(LeafItems(h[p].slots, n, base, live), s, h, p, 0, base, live, 0, n)
  {
    if n > 0 {
      LeafLists(s, h, p, base, live, n - 1);
      var v := h[p].slots[n - 1];
      var last := if live(v) then [(base + n - 1, v)] else [];
      assert Get(s, h, p, 0, n - 1) == v;
      ListsAppend(LeafItems(h[p].slots, n - 1, base, live), last, s, h, p, 0, base, live, n - 1, n);
    }
  }

  lemma DigitOf(i: nat, r: nat, span: Positive)
    requires r < span
    ensures Digit(i * span + r, span) == i && Rem(i * span + r, span) == r
  {
    DivUnique(i * span + r, span, i, r);
    DigitIsDiv(i * span + r, span);
  }

  /** Moving a list from a tree to another that stores the same values `lo` further on. */
  lemma ListsTransfer<V>(xs: seq<(nat, V)>, s: Shape<V>, h: Heap<V>, p: nat, level: nat, c: nat, cl: nat, base: nat,
                         live: V -> bool, lo: nat, span: nat)
    requires forall k: nat | lo <= k < lo + span :: Get(s, h, p, level, k) == Get(s, h, c, cl, k - lo)
    requires Lists(xs, s, h, c, cl, base + lo, live, 0, span)
    ensures Lists(xs, s, h, p, level, base, live, lo, lo + span)
  {
    hide Get, Ascending;
    forall k: nat | lo <= k < lo + span && live(Get(s, h, p, level, k))
      ensures (base + k, Get(s, h, p, level, k)) in xs
    {
      assert (base + lo + (k - lo), Get(s, h, c, cl, k - lo)) in xs;
    }
  }

  lemma KidGet<V>(s: Shape<V>, h: Heap<V>, p: nat, level: nat, i: nat, k: nat)
    requires level > 0 && p != 0 && Tree(s, h, p, level) && i < FANOUT
    requires i * Cap(s.leafCap, level - 1) <= k < i * Cap(s.leafCap, level - 1) + Cap(s.leafCap, level - 1)
    ensures Get(s, h, p, level, k) == Get(s, h, h[p].children[i], level - 1, k - i * Cap(s.leafCap, level - 1))
  {
    DigitOf(i, k - i * Cap(s.leafCap, level - 1), Cap(s.leafCap, level - 1));
    GetStep(s, h, p, level, k);
  }

  /** What a child lists, seen from its parent. */
  lemma ListsShift<V>(xs: seq<(nat, V)>, s: Shape<V>, h: Heap<V>, p: nat, level: nat, base: nat, live: V -> bool, i: nat)
    requires level > 0 && p != 0 && Tree(s, h, p, level) && i < FANOUT
    requires Lists(xs, s, h, h[p].children[i], level - 1, base + i * Cap(s.leafCap, level - 1), live, 0, Cap(s.leafCap, level - 1))
    ensures Lists(xs, s, h, p, level, base, live, i * Cap(s.leafCap, level - 1),
                  i * Cap(s.leafCap, level - 1) + Cap(s.leafCap, level - 1))
  {
    hide Cap, Get, Lists, Digit, Rem;
    var span := Cap(s.leafCap, level - 1);
    var lo := i * span;
    forall k: nat | lo <= k < lo + span
      ensures Get(s, h, p, level, k) == Get(s, h, h[p].children[i], level - 1, k - lo)
    {
      KidGet(s, h, p, level, i, k);
    }
    ListsTransfer(xs, s, h, p, level, h[p].children[i], level - 1, base, live, lo, span);
  }

  lemma {:induction false} KidsList<V>(s: Shape<V>, h: Heap<V>, p: nat, level: nat, base: nat, live: V -> bool, n: nat)
    requires level > 0 && p != 0 && Tree(s, h, p, level) && n <= FANOUT && !live(s.zero)
    ensures Lists(KidItems(s, h, p, level, base, live, n), s, h, p, level, base, live, 0, n * Cap(s.leafCap, level - 1))
    decreases level, 0, n
  {
    hide Lists, Cap, Get, Items, Reach;
    var span := Cap(s.leafCap, level - 1);
    if n == 0 {
      ListsNothing(s, h, p, level, base, live);
    } else {
      var c := h[p].children[n - 1];
      KidsList(s, h, p, level, base, live, n - 1);
      KidIsTree(s, h, p, level, n - 1);
      ItemsList(s, h, c, level - 1, base + (n - 1) * span, live);
      var xs := Items(s, h, c, level - 1, base + (n - 1) * span, live);
      ListsShift(xs, s, h, p, level, base, live, n - 1);
      assert (n - 1) * span + span == n * span;
      ListsAppend(KidItems(s, h, p, level, base, live, n - 1), xs, s, h, p, level, base, live, (n - 1) * span, n * span);
    }
  }

  lemma ListsNothing<V>(s: Shape<V>, h: Heap<V>, p: nat, level: nat, base: nat, live: V -> bool)
    ensures Lists([], s, h, p, level, base, live, 0, 0)
  {
  }

  /** The walk lists exactly the live keys, in ascending order. */
  lemma {:induction false} ItemsList<V>(s: Shape<V>, h: Heap<V>, p: nat, level: nat, base: nat, live: V -> bool)
    requires Tree(s, h, p, level) && !live(s.zero)
    ensures Lists(Items(s, h, p, level, base, live), s, h, p, level, base, live, 0, Cap(s.leafCap, level))
    decreases level, 1, 0
  {
    if p != 0 {
      if level == 0 {
        LeafLists(s, h, p, base, live, |h[p].slots|);
      } else {
        KidsList(s, h, p, level, base, live, FANOUT);
      }
    }
  }

  // ----- bounded walks -----

  /** The first `limit` of a list, or all of it. */
  function Take<T>(limit: nat, xs: seq<T>): seq<T> {
    xs[..Min(limit, |xs|)]
  }

  lemma TakeMore<T>(limit: nat, xs: seq<T>, ys: seq<T>)
    ensures Take(limit, Take(limit, xs) + ys) == Take(limit, xs + ys)
  {
  }

  /** Once the limit is reached, listing more changes nothing. */
  lemma TakeFull<T>(limit: nat, xs: seq<T>, ys: seq<T>)
    requires |Take(limit, xs)| >= limit && xs <= ys
    ensures Take(limit, ys) == Take(limit, xs)
  {
  }

  lemma {:induction false} LeafPrefix<V>(slots: seq<V>, n: nat, m: nat, base: nat, live: V -> bool)
    requires n <= m <= |slots|
    ensures LeafItems(slots, n, base, live) <= LeafItems(slots, m, base, live)
    decreases m
  {
    if n < m {
      LeafPrefix(slots, n, m - 1, base, live);
    }
  }

  lemma {:induction false} KidPrefix<V>(s: Shape<V>, h: Heap<V>, p: nat, level: nat, base: nat, live: V -> bool, n: nat, m: nat)
    requires level > 0 && p in h && h[p].Interior? && n <= m <= |h[p].children|
    ensures KidItems(s, h, p, level, base, live, n) <= KidItems(s, h, p, level, base, live, m)
    decreases m
  {
    if n < m {
      KidPrefix(s, h, p, level, base, live, n, m - 1);
    }
  }
}
