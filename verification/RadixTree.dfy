/**
 The theory shared by the three copy-on-write radix trees (handle table, membership
 radix, freemap). A heap maps page ids to decoded nodes; a tree is a page id and a level.
 Child pointer 0 means "no subtree", so page 0 denotes the empty tree at every level.

 `Get` gives the tree its meaning: one value for every key, `zero` where nothing is
 stored. `Reach` is the set of pages it occupies. The two are related by the frame lemma:
 heaps that agree on `Reach` agree on everything the tree means.
 */
module RadixTree {
  import opened Pages

  const FANOUT: nat := SLOTS_PER_PAGE

  type Positive = x: int | x > 0 witness 1

  datatype Shape<V> = Shape(leafCap: Positive, zero: V)
  datatype Node<V> = Other | Leaf(slots: seq<V>) | Interior(children: seq<nat>)
  type Heap<V> = map<nat, Node<V>>

  /** Number of keys beneath a node at `level`. */
  function Cap(leafCap: Positive, level: nat): Positive {
    if level == 0 then leafCap else FANOUT * Cap(leafCap, level - 1)
  }

  /** Quotient and remainder by a span, by repeated subtraction (see DigitIsDiv). */
  function Digit(k: nat, span: Positive): nat {
    if k < span then 0 else 1 + Digit(k - span, span)
  }

  function Rem(k: nat, span: Positive): nat {
    if k < span then k else Rem(k - span, span)
  }

  /** The machine's division, named so that a descent need not reason about it. */
  function Quotient(k: nat, span: Positive): nat {
    k / span
  }

  function Remainder(k: nat, span: Positive): nat {
    k % span
  }

  ghost function Reach<V>(h: Heap<V>, p: nat, level: nat): set<nat>
    decreases level, 1
  {
    if p == 0 then {}
    else if level > 0 && p in h && h[p].Interior? then
      {p} + set i, q | 0 <= i < |h[p].children| && q in KidReach(h, p, level, i) :: q
    else {p}
  }

  ghost function KidReach<V>(h: Heap<V>, p: nat, level: nat, i: nat): set<nat>
    requires level > 0 && p in h && h[p].Interior? && i < |h[p].children|
    decreases level, 0
  {
    Reach(h, h[p].children[i], level - 1)
  }

  /** Pages typed by level, and no page reached twice. */
  ghost predicate Tree<V>(s: Shape<V>, h: Heap<V>, p: nat, level: nat)
    decreases level
  {
    p == 0 ||
    (p in h &&
     if level == 0 then h[p].Leaf? && |h[p].slots| == s.leafCap
     else
       && h[p].Interior? && |h[p].children| == FANOUT
       && (forall i | 0 <= i < FANOUT :: p !in KidReach(h, p, level, i))
       && (forall i | 0 <= i < FANOUT :: Tree(s, h, h[p].children[i], level - 1))
       && (forall i, j | 0 <= i < j < FANOUT :: KidReach(h, p, level, i) !! KidReach(h, p, level, j)))
  }

  ghost function Get<V>(s: Shape<V>, h: Heap<V>, p: nat, level: nat, k: nat): V
    decreases level
  {
    if p == 0 || p !in h then s.zero
    else if level == 0 then
      if h[p].Leaf? && k < |h[p].slots| then h[p].slots[k] else s.zero
    else
      var span := Cap(s.leafCap, level - 1);
      if h[p].Interior? && Digit(k, span) < |h[p].children|
      then Get(s, h, h[p].children[Digit(k, span)], level - 1, Rem(k, span)) else s.zero
  }

  /** The leftmost path is fully populated: what lets a walk down child 0 recover the depth. */
  ghost predicate Spine<V>(h: Heap<V>, p: nat, level: nat)
    decreases level
  {
    p != 0 && p in h &&
    (level > 0 ==> h[p].Interior? && |h[p].children| == FANOUT && Spine(h, h[p].children[0], level - 1))
  }

  ghost predicate SameValues<V>(s: Shape<V>, h0: Heap<V>, p: nat, l0: nat, h1: Heap<V>, q: nat, l1: nat) {
    forall k: nat :: Get(s, h1, q, l1, k) == Get(s, h0, p, l0, k)
  }

  // ----- framing -----

  ghost predicate SameAt<V>(h: Heap<V>, h': Heap<V>, q: nat) {
    (q in h <==> q in h') && (q in h ==> h[q] == h'[q])
  }

  ghost predicate Untouched<V>(h: Heap<V>, h': Heap<V>, keep: set<nat>) {
    forall q | q in keep :: SameAt(h, h', q)
  }

  /** Every page outside `A` is the same in both heaps. */
  ghost predicate Wrote<T>(h: map<nat, T>, h': map<nat, T>, A: set<nat>) {
    forall q | q !in A :: (q in h <==> q in h') && (q in h ==> h[q] == h'[q])
  }

  lemma WroteKeeps<V>(h: Heap<V>, h': Heap<V>, A: set<nat>, keep: set<nat>)
    requires Wrote(h, h', A) && A !! keep
    ensures Untouched(h, h', keep)
  {
  }

  /** Frame lemma: agreeing on the pages a tree occupies is agreeing on its structure. */
  lemma {:induction false} Frame<V>(s: Shape<V>, h: Heap<V>, h': Heap<V>, p: nat, level: nat)
    requires Untouched(h, h', Reach(h, p, level))
    ensures Reach(h', p, level) == Reach(h, p, level)
    ensures Tree(s, h', p, level) <==> Tree(s, h, p, level)
    ensures Spine(h', p, level) <==> Spine(h, p, level)
    decreases level
  {
    if p != 0 {
      assert SameAt(h, h', p);
      if level > 0 && p in h && h[p].Interior? {
        forall i | 0 <= i < |h[p].children|
          ensures KidReach(h', p, level, i) == KidReach(h, p, level, i)
          ensures Tree(s, h', h[p].children[i], level - 1) <==> Tree(s, h, h[p].children[i], level - 1)
          ensures Spine(h', h[p].children[i], level - 1) <==> Spine(h, h[p].children[i], level - 1)
        {
          assert KidReach(h, p, level, i) <= Reach(h, p, level);
          Frame(s, h, h', h[p].children[i], level - 1);
        }
      }
    }
  }

  /** Frame lemma, values: agreeing on the pages a tree occupies is agreeing on every key. */
  lemma {:induction false} FrameGet<V>(s: Shape<V>, h: Heap<V>, h': Heap<V>, p: nat, level: nat, k: nat)
    requires Untouched(h, h', Reach(h, p, level))
    ensures Get(s, h', p, level, k) == Get(s, h, p, level, k)
    decreases level
  {
    if p != 0 {
      assert SameAt(h, h', p);
      if level > 0 && p in h && h[p].Interior? {
        var i := Digit(k, Cap(s.leafCap, level - 1));
        if i < |h[p].children| {
          assert KidReach(h, p, level, i) <= Reach(h, p, level);
          FrameGet(s, h, h', h[p].children[i], level - 1, Rem(k, Cap(s.leafCap, level - 1)));
        }
      }
    }
  }

  /** The pages a tree reaches are pages of its heap. */
  lemma {:induction false} ReachStored<V>(s: Shape<V>, h: Heap<V>, p: nat, level: nat)
    requires Tree(s, h, p, level)
    ensures Reach(h, p, level) <= h.Keys
    decreases level
  {
    if p != 0 && level > 0 {
      forall i: nat | i < FANOUT ensures KidReach(h, p, level, i) <= h.Keys {
        ReachStored(s, h, h[p].children[i], level - 1);
      }
    }
  }

  lemma FrameAll<V>(s: Shape<V>, h: Heap<V>, h': Heap<V>, p: nat, level: nat)
    requires Untouched(h, h', Reach(h, p, level))
    ensures Reach(h', p, level) == Reach(h, p, level)
    ensures Tree(s, h', p, level) <==> Tree(s, h, p, level)
    ensures Spine(h', p, level) <==> Spine(h, p, level)
    ensures SameValues(s, h, p, level, h', p, level)
  {
    Frame(s, h, h', p, level);
    forall k: nat ensures Get(s, h', p, level, k) == Get(s, h, p, level, k) {
      FrameGet(s, h, h', p, level, k);
    }
  }

  // ----- digits -----

  /** The radix digits are the quotient and remainder the machine computes. */
  lemma DigitIsDiv(k: nat, span: Positive)
    ensures Digit(k, span) == k / span && Rem(k, span) == k % span
    ensures Rem(k, span) < span
  {
    DigitCompose(k, span);
    DivUnique(k, span, Digit(k, span), Rem(k, span));
  }

  lemma DivUnique(k: nat, span: Positive, q: nat, r: nat)
    requires k == q * span + r && r < span
    ensures k / span == q && k % span == r
  {
    var q' := k / span;
    NotBelow(q, r, q', k % span, span);
    NotBelow(q', k % span, q, r, span);
  }

  /** A larger quotient makes a larger number, whatever the remainders. */
  lemma NotBelow(q: nat, r: nat, q': nat, r': nat, span: Positive)
    requires r < span
    ensures q < q' ==> q * span + r < q' * span + r'
  {
    if q < q' {
      MulMono(q + 1, q', span);
    }
  }

  lemma MulMono(a: nat, b: nat, c: nat)
    requires a <= b
    ensures a * c <= b * c
  {
  }

  lemma {:induction false} DigitBound(k: nat, span: Positive, n: nat)
    ensures k < n * span <==> Digit(k, span) < n
  {
    if n > 0 {
      assert n * span == (n - 1) * span + span;
      if k >= span {
        DigitBound(k - span, span, n - 1);
      }
    }
  }

  /** Digit and remainder determine the key. */
  lemma {:induction false} DigitsUnique(k: nat, k': nat, span: Positive)
    ensures k == k' <==> Digit(k, span) == Digit(k', span) && Rem(k, span) == Rem(k', span)
    decreases k
  {
    if k >= span && k' >= span {
      DigitsUnique(k - span, k' - span, span);
    }
  }

  lemma {:induction false} DigitCompose(k: nat, span: Positive)
    ensures k == Digit(k, span) * span + Rem(k, span) && Rem(k, span) < span
  {
    if k >= span {
      DigitCompose(k - span, span);
    }
  }

  // ----- depth, capacity and u64 -----

  /** `maxDepth` is the first depth whose true capacity exceeds u64; no span below it saturates. */
  predicate DepthFits(leafCap: Positive, maxDepth: nat) {
    maxDepth > 0 && Cap(leafCap, maxDepth - 1) < U64_MAX < Cap(leafCap, maxDepth)
  }

  /** Keys beneath a node at `level`, by saturating multiplication. */
  method Saturated(leafCap: Positive, level: nat) returns (cap: nat)
    requires leafCap <= U64_MAX
    ensures cap == Min(Cap(leafCap, level), U64_MAX) && cap > 0
  {
    cap := leafCap;
    for i := 0 to level
      invariant cap == Min(Cap(leafCap, i), U64_MAX)
    {
      cap := SatMul(cap, FANOUT);
    }
  }

  lemma {:induction false} CapMonotone(leafCap: Positive, a: nat, b: nat)
    requires a <= b
    ensures Cap(leafCap, a) <= Cap(leafCap, b)
    decreases b
  {
    if a < b {
      CapMonotone(leafCap, a, b - 1);
    }
  }

  lemma CapZero(leafCap: Positive)
    ensures Cap(leafCap, 0) == leafCap
  {
  }

  lemma SpanFits(leafCap: Positive, maxDepth: nat, level: nat)
    requires DepthFits(leafCap, maxDepth) && 1 <= level <= maxDepth
    ensures Min(Cap(leafCap, level - 1), U64_MAX) == Cap(leafCap, level - 1)
  {
    CapMonotone(leafCap, level - 1, maxDepth - 1);
  }

  /** At every level of a tree of legal depth the descent's digit is a slot of the page. */
  lemma DigitInPage(leafCap: Positive, maxDepth: nat, k: nat, level: nat)
    requires DepthFits(leafCap, maxDepth) && 1 <= level <= maxDepth && k < Cap(leafCap, level)
    ensures Cap(leafCap, level - 1) <= U64_MAX
    ensures k / Cap(leafCap, level - 1) == Digit(k, Cap(leafCap, level - 1)) < FANOUT
    ensures k % Cap(leafCap, level - 1) == Rem(k, Cap(leafCap, level - 1))
    ensures Rem(k, Cap(leafCap, level - 1)) < Cap(leafCap, level - 1)
  {
    CapMonotone(leafCap, level - 1, maxDepth - 1);
    DigitBound(k, Cap(leafCap, level - 1), FANOUT);
    DigitIsDiv(k, Cap(leafCap, level - 1));
  }

  lemma SplitInPage(leafCap: Positive, maxDepth: nat, k: nat, level: nat)
    requires DepthFits(leafCap, maxDepth) && 1 <= level <= maxDepth && k < Cap(leafCap, level)
    ensures var span := Cap(leafCap, level - 1);
            && span <= U64_MAX && Quotient(k, span) == Digit(k, span) < FANOUT && Remainder(k, span) == Rem(k, span) < span
  {
    DigitInPage(leafCap, maxDepth, k, level);
  }

  /** The read guard: below the saturated capacity, or at the depth where it saturates, a key is in reach. */
  lemma InReach(leafCap: Positive, maxDepth: nat, k: u64, depth: nat)
    requires DepthFits(leafCap, maxDepth) && depth <= maxDepth
    requires Min(Cap(leafCap, depth), U64_MAX) == U64_MAX || k < Min(Cap(leafCap, depth), U64_MAX)
    ensures k < Cap(leafCap, depth)
  {
    if depth < maxDepth {
      CapMonotone(leafCap, depth, maxDepth - 1);
    }
  }

  /** Keys past the capacity of a well-formed tree read as absent. */
  lemma OutOfReach<V>(s: Shape<V>, h: Heap<V>, p: nat, level: nat, k: nat)
    requires Tree(s, h, p, level) && k >= Cap(s.leafCap, level)
    ensures Get(s, h, p, level, k) == s.zero
  {
    if level > 0 {
      DigitBound(k, Cap(s.leafCap, level - 1), FANOUT);
    }
  }

  // ----- reading on any pages -----

  /** On the way to `k` every page is there and of the kind its level asks for (the leaf too, if `strict`), down to an empty slot or a leaf. */
  ghost predicate Passable<V>(s: Shape<V>, h: Heap<V>, p: nat, level: nat, k: nat, strict: bool)
    decreases level
  {
    p in h &&
    if level == 0 then strict ==> h[p].Leaf?
    else
      var span := Cap(s.leafCap, level - 1);
      && h[p].Interior? && Digit(k, span) < |h[p].children|
      && (h[p].children[Digit(k, span)] == 0 || Passable(s, h, h[p].children[Digit(k, span)], level - 1, Rem(k, span), strict))
  }

  /** A tree can be read at every key in its range. */
  lemma {:induction false} TreePassable<V>(s: Shape<V>, h: Heap<V>, p: nat, level: nat, k: nat, strict: bool)
    requires p != 0 && Tree(s, h, p, level) && k < Cap(s.leafCap, level)
    ensures Passable(s, h, p, level, k, strict)
    decreases level
  {
    if level > 0 {
      var span := Cap(s.leafCap, level - 1);
      DigitBound(k, span, FANOUT);
      DigitCompose(k, span);
      if h[p].children[Digit(k, span)] != 0 {
        TreePassable(s, h, h[p].children[Digit(k, span)], level - 1, Rem(k, span), strict);
      }
    }
  }

  lemma {:induction false} StrictPasses<V>(s: Shape<V>, h: Heap<V>, p: nat, level: nat, k: nat)
    ensures Passable(s, h, p, level, k, true) ==> Passable(s, h, p, level, k, false)
    decreases level
  {
    if level > 0 && Passable(s, h, p, level, k, true) {
      var span := Cap(s.leafCap, level - 1);
      StrictPasses(s, h, h[p].children[Digit(k, span)], level - 1, Rem(k, span));
    }
  }

  /** A heap whose nodes all have the full number of slots. */
  ghost predicate FullNodes<V>(s: Shape<V>, h: Heap<V>) {
    forall p | p in h :: (h[p].Leaf? ==> |h[p].slots| == s.leafCap) && (h[p].Interior? ==> |h[p].children| == FANOUT)
  }

  lemma FarOut<V>(s: Shape<V>, h: Heap<V>, p: nat, level: nat, k: nat)
    requires FullNodes(s, h) && k >= Cap(s.leafCap, level)
    ensures Get(s, h, p, level, k) == s.zero
  {
    if level > 0 {
      DigitBound(k, Cap(s.leafCap, level - 1), FANOUT);
    }
  }

  /** One step of a lookup on any pages: a page of the wrong kind stops it, an empty slot answers it, a child takes it over. */
  lemma PassStep<V>(s: Shape<V>, h: Heap<V>, p: nat, level: nat, k: nat, strict: bool)
    requires level > 0 && p != 0 && FullNodes(s, h) && Digit(k, Cap(s.leafCap, level - 1)) < FANOUT
    ensures !(p in h && h[p].Interior?) ==> !Passable(s, h, p, level, k, strict)
    ensures p in h && h[p].Interior? ==>
              var span := Cap(s.leafCap, level - 1);
              var child := h[p].children[Digit(k, span)];
              && Get(s, h, p, level, k) == Get(s, h, child, level - 1, Rem(k, span))
              && (child == 0 ==> Passable(s, h, p, level, k, strict) && Get(s, h, p, level, k) == s.zero)
              && (child != 0 ==> (Passable(s, h, p, level, k, strict) <==> Passable(s, h, child, level - 1, Rem(k, span), strict)))
  {
  }

  // ----- replacing one child -----

  /**
   Let `n` hold node `p` with child `i` replaced by the tree at `c`. Then `n` is a tree,
   and it occupies what `p` did except `p` itself and the old child, plus `c`'s pages.
   `n` may be a fresh copy or `p` edited in place.
   */
  lemma Relink<V>(s: Shape<V>, h0: Heap<V>, p: nat, level: nat, h1: Heap<V>, n: nat, i: nat, c: nat)
    requires level > 0 && p != 0 && Tree(s, h0, p, level) && i < FANOUT
    requires Untouched(h0, h1, Reach(h0, p, level) - {p} - KidReach(h0, p, level, i))
    requires n != 0 && n in h1 && h1[n] == Interior(h0[p].children[i := c])
    requires n !in Reach(h0, p, level) - {p} && n !in Reach(h1, c, level - 1)
    requires Tree(s, h1, c, level - 1)
    requires Reach(h1, c, level - 1) !! Reach(h0, p, level) - {p} - KidReach(h0, p, level, i)
    ensures Tree(s, h1, n, level)
    ensures Reach(h1, n, level)
         == {n} + (Reach(h0, p, level) - {p} - KidReach(h0, p, level, i)) + Reach(h1, c, level - 1)
  {
    var rest := Reach(h0, p, level) - {p} - KidReach(h0, p, level, i);
    forall j | 0 <= j < FANOUT && j != i
      ensures KidReach(h1, n, level, j) == KidReach(h0, p, level, j) <= rest
      ensures Tree(s, h1, h1[n].children[j], level - 1)
    {
      RelinkKid(s, h0, p, level, h1, n, i, c, j);
    }
    assert KidReach(h1, n, level, i) == Reach(h1, c, level - 1);
    forall q | q in rest ensures q in Reach(h1, n, level) {
      var j :| 0 <= j < FANOUT && q in KidReach(h0, p, level, j);
      assert q in KidReach(h1, n, level, j);
    }
    forall j, k | 0 <= j < k < FANOUT ensures KidReach(h1, n, level, j) !! KidReach(h1, n, level, k) {
      assert KidReach(h0, p, level, j) !! KidReach(h0, p, level, k);
    }
  }

  lemma KidsApart<V>(s: Shape<V>, h: Heap<V>, p: nat, level: nat, i: nat, j: nat)
    requires level > 0 && p != 0 && Tree(s, h, p, level) && i < FANOUT && j < FANOUT && j != i
    ensures KidReach(h, p, level, j) <= Reach(h, p, level) - {p} - KidReach(h, p, level, i)
  {
    assert KidReach(h, p, level, j) <= Reach(h, p, level) - {p};
    if i < j {
      assert KidReach(h, p, level, i) !! KidReach(h, p, level, j);
    } else {
      assert KidReach(h, p, level, j) !! KidReach(h, p, level, i);
    }
  }

  lemma RelinkKid<V>(s: Shape<V>, h0: Heap<V>, p: nat, level: nat, h1: Heap<V>, n: nat, i: nat, c: nat, j: nat)
    requires level > 0 && p != 0 && Tree(s, h0, p, level) && i < FANOUT && j < FANOUT && j != i
    requires Untouched(h0, h1, Reach(h0, p, level) - {p} - KidReach(h0, p, level, i))
    requires n in h1 && h1[n] == Interior(h0[p].children[i := c])
    ensures KidReach(h1, n, level, j) == KidReach(h0, p, level, j)
    ensures KidReach(h0, p, level, j) <= Reach(h0, p, level) - {p} - KidReach(h0, p, level, i)
    ensures Tree(s, h1, h1[n].children[j], level - 1)
  {
    var q := h0[p].children[j];
    assert Tree(s, h0, q, level - 1);
    KidsApart(s, h0, p, level, i, j);
    Frame(s, h0, h1, q, level - 1);
  }

  /** What the relinked node stores: the new child under digit `i`, the old node elsewhere. */
  lemma RelinkGet<V>(s: Shape<V>, h0: Heap<V>, p: nat, level: nat, h1: Heap<V>, n: nat, i: nat, c: nat, k: nat)
    requires level > 0 && p != 0 && Tree(s, h0, p, level) && i < FANOUT
    requires Untouched(h0, h1, Reach(h0, p, level) - {p} - KidReach(h0, p, level, i))
    requires n != 0 && n in h1 && h1[n] == Interior(h0[p].children[i := c])
    ensures Get(s, h1, n, level, k)
         == if Digit(k, Cap(s.leafCap, level - 1)) == i then Get(s, h1, c, level - 1, Rem(k, Cap(s.leafCap, level - 1)))
            else Get(s, h0, p, level, k)
  {
    var span := Cap(s.leafCap, level - 1);
    var j := Digit(k, span);
    if j != i && j < FANOUT {
      var q := h0[p].children[j];
      KidsApart(s, h0, p, level, i, j);
      FrameGet(s, h0, h1, q, level - 1, Rem(k, span));
    }
  }

  // ----- copy-on-write -----

  ghost function Elems(f: seq<nat>): set<nat> {
    set x | x in f
  }

  ghost predicate Distinct(f: seq<nat>) {
    forall i, j | 0 <= i < j < |f| :: f[i] != f[j]
  }

  lemma ElemsConcat(a: seq<nat>, b: seq<nat>)
    ensures Elems(a + b) == Elems(a) + Elems(b)
    ensures Distinct(a) && Distinct(b) && Elems(a) !! Elems(b) ==> Distinct(a + b)
  {
    if Distinct(a) && Distinct(b) && Elems(a) !! Elems(b) {
      forall i, j | 0 <= i < j < |a + b| ensures (a + b)[i] != (a + b)[j] {
        if i < |a| <= j {
          assert a[i] in Elems(a) && b[j - |a|] in Elems(b);
        }
      }
    }
  }

  /**
   `q` in `h1` is a tree built to replace `p` of `h0` from the newly drawn pages `A`,
   superseding exactly the pages listed in `f`: every page is either still in use or
   listed once, never both.
   */
  ghost predicate Built<V>(s: Shape<V>, h0: Heap<V>, p: nat, l0: nat, h1: Heap<V>, q: nat, l1: nat, A: set<nat>, f: seq<nat>) {
    && q != 0 && Tree(s, h1, q, l1)
    && Reach(h0, p, l0) + A == Reach(h1, q, l1) + Elems(f)
    && Reach(h1, q, l1) !! Elems(f)
    && Distinct(f)
    && (Spine(h0, p, l0) ==> Spine(h1, q, l1))
  }

  /** The two trees store the same value at every key except that `key` now stores `v`. */
  ghost predicate PutAt<V>(s: Shape<V>, h0: Heap<V>, p: nat, l0: nat, h1: Heap<V>, q: nat, l1: nat, key: nat, v: V) {
    forall k: nat :: Get(s, h1, q, l1, k) == if k == key then v else Get(s, h0, p, l0, k)
  }

  /** A fresh node with nothing in it. */
  ghost predicate EmptyNode<V>(s: Shape<V>, h: Heap<V>, c: nat, level: nat) {
    c != 0 && c in h &&
    if level == 0 then h[c].Leaf? && |h[c].slots| == s.leafCap && (forall i | 0 <= i < s.leafCap :: h[c].slots[i] == s.zero)
    else h[c].Interior? && |h[c].children| == FANOUT && (forall i | 0 <= i < FANOUT :: h[c].children[i] == 0)
  }

  lemma EmptyNodeIsTree<V>(s: Shape<V>, h: Heap<V>, c: nat, level: nat)
    requires EmptyNode(s, h, c, level)
    ensures c != 0 && Tree(s, h, c, level)
    ensures Reach(h, c, level) == {c}
    ensures forall k: nat :: Get(s, h, c, level, k) == s.zero
  {
    if level > 0 {
      forall i | 0 <= i < FANOUT ensures KidReach(h, c, level, i) == {} {
        assert h[c].children[i] == 0;
      }
      forall i | 0 <= i < FANOUT ensures Tree(s, h, h[c].children[i], level - 1) {
        assert h[c].children[i] == 0;
      }
    }
  }

  /** Copying a leaf and writing one slot of the copy. */
  lemma CowLeaf<V>(s: Shape<V>, h0: Heap<V>, p: nat, key: nat, v: V, h1: Heap<V>, n: nat)
    requires p != 0 && Tree(s, h0, p, 0) && key < s.leafCap
    requires n != 0 && n != p
    requires n in h1 && h1[n] == Leaf(h0[p].slots[key := v])
    ensures Built(s, h0, p, 0, h1, n, 0, {n}, [p])
    ensures PutAt(s, h0, p, 0, h1, n, 0, key, v)
  {
    assert Elems([p]) == {p};
  }

  /** The page sets of one copy-on-write step at an interior node. */
  lemma CowSets(R0: set<nat>, p: nat, X0: set<nat>, R1: set<nat>, n: nat, X1: set<nat>, A: set<nat>, f: set<nat>)
    requires p in R0 && p !in X0 && X0 <= R0 && n !in A && A !! R0 && n !in R0
    requires X0 + A == X1 + f && X1 !! f
    requires R1 == {n} + (R0 - {p} - X0) + X1
    ensures R0 + (A + {n}) == R1 + (f + {p})
    ensures R1 !! f + {p}
  {
    assert X1 <= X0 + A && f <= X0 + A;
  }

  /**
   Copying an interior node after its child on the path was rebuilt, and pointing the copy
   at the rebuilt child.
   */
  lemma CowInterior<V>(s: Shape<V>, h0: Heap<V>, p: nat, level: nat, i: nat,
                       h2: Heap<V>, c: nat, A: set<nat>, fc: seq<nat>, h1: Heap<V>, n: nat, f: seq<nat>)
    requires level > 0 && p != 0 && Tree(s, h0, p, level) && i < FANOUT
    requires Built(s, h0, h0[p].children[i], level - 1, h2, c, level - 1, A, fc)
    requires Wrote(h0, h2, A + {n}) && n !in A && n != 0 && A + {n} !! Reach(h0, p, level)
    requires h1 == h2[n := Interior(h0[p].children[i := c])]
    requires Elems(f) == Elems(fc) + {p} && Distinct(f)
    ensures Built(s, h0, p, level, h1, n, level, A + {n}, f)
  {
    var X0 := KidReach(h0, p, level, i);
    CowFrames(s, h0, p, level, i, h2, c, A, fc, h1, n);
    Relink(s, h0, p, level, h1, n, i, c);
    CowSets(Reach(h0, p, level), p, X0, Reach(h1, n, level), n, Reach(h1, c, level - 1), A, Elems(fc));
    if Spine(h0, p, level) {
      CowSpine(s, h0, p, level, i, c, h1, n);
    }
  }

  /** Neither the old node's pages nor the rebuilt child's are disturbed by writing the copy. */
  lemma CowFrames<V>(s: Shape<V>, h0: Heap<V>, p: nat, level: nat, i: nat,
                     h2: Heap<V>, c: nat, A: set<nat>, fc: seq<nat>, h1: Heap<V>, n: nat)
    requires level > 0 && p != 0 && Tree(s, h0, p, level) && i < FANOUT
    requires Built(s, h0, h0[p].children[i], level - 1, h2, c, level - 1, A, fc)
    requires Wrote(h0, h2, A + {n}) && n !in A && n != 0 && A + {n} !! Reach(h0, p, level)
    requires h1 == h2[n := Interior(h0[p].children[i := c])]
    ensures KidReach(h0, p, level, i) <= Reach(h0, p, level) && p !in KidReach(h0, p, level, i)
    ensures Reach(h1, c, level - 1) == Reach(h2, c, level - 1) <= KidReach(h0, p, level, i) + A
    ensures Untouched(h0, h1, Reach(h0, p, level)) && Tree(s, h1, c, level - 1)
    ensures Spine(h1, c, level - 1) <==> Spine(h2, c, level - 1)
    ensures SameValues(s, h2, c, level - 1, h1, c, level - 1)
  {
    assert KidReach(h0, p, level, i) == Reach(h0, h0[p].children[i], level - 1);
    assert Reach(h2, c, level - 1) <= KidReach(h0, p, level, i) + A;
    assert Untouched(h2, h1, Reach(h2, c, level - 1));
    FrameAll(s, h2, h1, c, level - 1);
  }

  /** The copy stores what the old node stored, except at the key on the path. */
  lemma CowInteriorPut<V>(s: Shape<V>, h0: Heap<V>, p: nat, level: nat, key: nat, v: V,
                          h2: Heap<V>, c: nat, A: set<nat>, fc: seq<nat>, h1: Heap<V>, n: nat)
    requires level > 0 && p != 0 && Tree(s, h0, p, level)
    requires Digit(key, Cap(s.leafCap, level - 1)) < FANOUT
    requires Built(s, h0, h0[p].children[Digit(key, Cap(s.leafCap, level - 1))], level - 1, h2, c, level - 1, A, fc)
    requires PutAt(s, h0, h0[p].children[Digit(key, Cap(s.leafCap, level - 1))], level - 1, h2, c, level - 1,
                   Rem(key, Cap(s.leafCap, level - 1)), v)
    requires Wrote(h0, h2, A + {n}) && n !in A && n != 0 && A + {n} !! Reach(h0, p, level)
    requires h1 == h2[n := Interior(h0[p].children[Digit(key, Cap(s.leafCap, level - 1)) := c])]
    ensures PutAt(s, h0, p, level, h1, n, level, key, v)
  {
    var span := Cap(s.leafCap, level - 1);
    var i := Digit(key, span);
    CowFrames(s, h0, p, level, i, h2, c, A, fc, h1, n);
    forall k: nat ensures Get(s, h1, n, level, k) == if k == key then v else Get(s, h0, p, level, k) {
      RelinkGet(s, h0, p, level, h1, n, i, c, k);
      DigitsUnique(k, key, span);
    }
  }

  lemma CowSpine<V>(s: Shape<V>, h0: Heap<V>, p: nat, level: nat, i: nat, c: nat, h1: Heap<V>, n: nat)
    requires level > 0 && p != 0 && Tree(s, h0, p, level) && i < FANOUT
    requires Untouched(h0, h1, Reach(h0, p, level) - {p})
    requires n != 0 && n in h1 && h1[n] == Interior(h0[p].children[i := c])
    requires Spine(h0, p, level)
    requires Spine(h0, h0[p].children[i], level - 1) ==> Spine(h1, c, level - 1)
    ensures Spine(h1, n, level)
  {
    var q := h0[p].children[0];
    assert KidReach(h0, p, level, 0) <= Reach(h0, p, level) - {p};
    Frame(s, h0, h1, q, level - 1);
  }

  // ----- allocation -----

  ghost predicate GoodSupply(supply: set<nat>, keep: set<nat>) {
    supply !! keep && forall id | id in supply :: 0 < id < PAGE_ID_NONE
  }

  /** Every page is either still in use or on the freed list, once; none is both. */
  ghost predicate Conserved(before: set<nat>, drawn: set<nat>, after: set<nat>, freed: seq<nat>) {
    before + drawn == after + Elems(freed) && after !! Elems(freed) && Distinct(freed)
  }

  /** Every page is in use, queued for reuse once, or was lost to a refused operation; none is two of these. */
  ghost predicate Accounted(before: set<nat>, drawn: set<nat>, after: set<nat>, freed: seq<nat>, lost: set<nat>) {
    && before + drawn == after + Elems(freed) + lost && Distinct(freed)
    && after !! Elems(freed) && after !! lost && Elems(freed) !! lost
  }

  lemma AccountedMore(before: set<nat>, drawn: set<nat>, mid: set<nat>, freed: seq<nat>, lost: set<nat>,
                      more: set<nat>, after: set<nat>, f: seq<nat>, ok: bool)
    requires Accounted(before, drawn, mid, freed, lost) && more !! before + drawn
    requires if ok then Conserved(mid, more, after, f) else f == [] && after == mid
    ensures Accounted(before, drawn + more, after, freed + f, if ok then lost else lost + more)
  {
    ElemsConcat(freed, f);
    assert Elems([]) == {};
    assert freed + [] == freed;
    if ok {
      assert mid + more == after + Elems(f);
    }
  }

  ghost predicate AllStamped(hash: Hash, pages: map<nat, Image>, ids: set<nat>) {
    forall q | q in ids :: q in pages && Stamped(hash, pages[q])
  }

  lemma StampedLevel(hash: Hash, pm: map<nat, Image>, E: set<nat>, p2: map<nat, Image>, A: set<nat>, n: nat, buf: Image, all: set<nat>)
    requires AllStamped(hash, pm, E) && Wrote(pm, p2, A) && E !! A && AllStamped(hash, p2, A) && Stamped(hash, buf)
    requires all <= E + A + {n}
    ensures AllStamped(hash, p2[n := buf], all)
  {
  }

  lemma StampedMore(hash: Hash, p1: map<nat, Image>, A: set<nat>, p2: map<nat, Image>, B: set<nat>, all: set<nat>)
    requires AllStamped(hash, p1, A) && Wrote(p1, p2, B) && AllStamped(hash, p2, B) && all <= A + B
    ensures AllStamped(hash, p2, all)
  {
  }

  // ----- one level of a top-down insert -----

  /** The child the descent continues into: the old child, or a fresh empty node in its place. */
  ghost predicate Descends<V>(s: Shape<V>, h0: Heap<V>, p: nat, level: nat, i: nat, hm: Heap<V>, c: nat, E: set<nat>)
    requires level > 0 && p in h0 && h0[p].Interior? && i < |h0[p].children|
  {
    if h0[p].children[i] == 0 then EmptyNode(s, hm, c, level - 1) && E == {c}
    else c == h0[p].children[i] && E == {}
  }

  lemma ChildReady<V>(s: Shape<V>, h0: Heap<V>, p: nat, level: nat, i: nat, hm: Heap<V>, c: nat, E: set<nat>, n: nat)
    requires level > 0 && p != 0 && Tree(s, h0, p, level) && i < FANOUT
    requires Descends(s, h0, p, level, i, hm, c, E)
    requires Wrote(h0, hm, E + {n}) && E + {n} !! Reach(h0, p, level)
    ensures c != 0 && Tree(s, hm, c, level - 1)
    ensures Reach(hm, c, level - 1) == KidReach(h0, p, level, i) + E
    ensures KidReach(h0, p, level, i) <= Reach(h0, p, level)
    ensures SameValues(s, h0, h0[p].children[i], level - 1, hm, c, level - 1)
    ensures Spine(h0, h0[p].children[i], level - 1) ==> Spine(hm, c, level - 1)
  {
    assert KidReach(h0, p, level, i) <= Reach(h0, p, level);
    if h0[p].children[i] == 0 {
      EmptyNodeIsTree(s, hm, c, level - 1);
    } else {
      FrameAll(s, h0, hm, c, level - 1);
    }
  }

  /** A rebuilt child rebuilds the node above it. */
  lemma CowPath<V>(s: Shape<V>, h0: Heap<V>, p: nat, level: nat, key: nat, v: V,
                   hm: Heap<V>, c: nat, E: set<nat>, h2: Heap<V>, c': nat, A: set<nat>, fc: seq<nat>,
                   h1: Heap<V>, n: nat, f: seq<nat>)
    requires level > 0 && p != 0 && Tree(s, h0, p, level)
    requires Digit(key, Cap(s.leafCap, level - 1)) < FANOUT
    requires Descends(s, h0, p, level, Digit(key, Cap(s.leafCap, level - 1)), hm, c, E)
    requires Wrote(h0, hm, E + {n}) && Wrote(hm, h2, A)
    requires Built(s, hm, c, level - 1, h2, c', level - 1, A, fc)
    requires PutAt(s, hm, c, level - 1, h2, c', level - 1, Rem(key, Cap(s.leafCap, level - 1)), v)
    requires n != 0 && n !in E && n !in A && E + A + {n} !! Reach(h0, p, level)
    requires h1 == h2[n := Interior(h0[p].children[Digit(key, Cap(s.leafCap, level - 1)) := c'])]
    requires f == [p] + fc
    ensures Built(s, h0, p, level, h1, n, level, E + A + {n}, f)
    ensures PutAt(s, h0, p, level, h1, n, level, key, v)
  {
    var i := Digit(key, Cap(s.leafCap, level - 1));
    ChildBuilt(s, h0, p, level, i, hm, c, E, n, h2, c', A, fc, Rem(key, Cap(s.leafCap, level - 1)), v);
    WroteTrans(h0, hm, h2, E + {n}, A, E + A + {n});
    FreedOnce(s, h0, p, level, i, h2, c', E + A, fc, f);
    CowInterior(s, h0, p, level, i, h2, c', E + A, fc, h1, n, f);
    CowInteriorPut(s, h0, p, level, key, v, h2, c', E + A, fc, h1, n);
  }

  lemma KidThere<V>(s: Shape<V>, h: Heap<V>, p: nat, level: nat, i: nat)
    requires level > 0 && p != 0 && Tree(s, h, p, level) && i < FANOUT
    ensures p in h && h[p].Interior? && |h[p].children| == FANOUT
    ensures KidReach(h, p, level, i) == Reach(h, h[p].children[i], level - 1)
  {
  }

  lemma ChildBuilt<V>(s: Shape<V>, h0: Heap<V>, p: nat, level: nat, i: nat, hm: Heap<V>, c: nat, E: set<nat>, n: nat,
                      h2: Heap<V>, c': nat, A: set<nat>, fc: seq<nat>, key: nat, v: V)
    requires level > 0 && p != 0 && Tree(s, h0, p, level) && i < FANOUT
    requires Descends(s, h0, p, level, i, hm, c, E)
    requires Wrote(h0, hm, E + {n}) && E + {n} !! Reach(h0, p, level)
    requires Built(s, hm, c, level - 1, h2, c', level - 1, A, fc)
    requires PutAt(s, hm, c, level - 1, h2, c', level - 1, key, v)
    ensures Built(s, h0, h0[p].children[i], level - 1, h2, c', level - 1, E + A, fc)
    ensures PutAt(s, h0, h0[p].children[i], level - 1, h2, c', level - 1, key, v)
  {
    hide Tree, Reach, Descends, Wrote, SameValues, PutAt, Get, Spine, Elems, Distinct;
    KidThere(s, h0, p, level, i);
    ChildReady(s, h0, p, level, i, hm, c, E, n);
    PutAfterSame(s, h0, h0[p].children[i], level - 1, hm, c, level - 1, h2, c', level - 1, key, v);
  }

  lemma WroteMore<T>(h: map<nat, T>, h': map<nat, T>, A: set<nat>, q: nat, x: T)
    requires Wrote(h, h', A) && q in A
    ensures Wrote(h, h'[q := x], A)
  {
  }

  lemma WroteAt<T>(h: map<nat, T>, h': map<nat, T>, A: set<nat>, q: nat)
    requires Wrote(h, h', A) && q !in A && q in h
    ensures q in h' && h'[q] == h[q]
  {
  }

  lemma WroteNone<T>(h: map<nat, T>, A: set<nat>)
    ensures Wrote(h, h, A)
  {
  }

  lemma WroteTrans<T>(h0: map<nat, T>, h1: map<nat, T>, h2: map<nat, T>, A: set<nat>, B: set<nat>, C: set<nat>)
    requires Wrote(h0, h1, A) && Wrote(h1, h2, B) && A + B <= C
    ensures Wrote(h0, h2, C)
  {
  }

  lemma PutAfterSame<V>(s: Shape<V>, h0: Heap<V>, p: nat, l0: nat, h1: Heap<V>, q: nat, l1: nat,
                        h2: Heap<V>, r: nat, l2: nat, key: nat, v: V)
    requires SameValues(s, h0, p, l0, h1, q, l1) && PutAt(s, h1, q, l1, h2, r, l2, key, v)
    ensures PutAt(s, h0, p, l0, h2, r, l2, key, v)
  {
    forall k: nat ensures Get(s, h2, r, l2, k) == if k == key then v else Get(s, h0, p, l0, k) {
      assert Get(s, h1, q, l1, k) == Get(s, h0, p, l0, k);
    }
  }

  /** The superseded node is listed once, whichever end of the list it is pushed on. */
  lemma FreedOnce<V>(s: Shape<V>, h0: Heap<V>, p: nat, level: nat, i: nat, h2: Heap<V>, c: nat,
                     A: set<nat>, fc: seq<nat>, f: seq<nat>)
    requires level > 0 && p != 0 && Tree(s, h0, p, level) && i < FANOUT
    requires Built(s, h0, h0[p].children[i], level - 1, h2, c, level - 1, A, fc)
    requires p !in A && (f == [p] + fc || f == fc + [p])
    ensures Elems(f) == Elems(fc) + {p} && Distinct(f)
  {
    assert p !in KidReach(h0, p, level, i);
    assert p !in Elems(fc);
    assert Elems(f) == Elems(fc) + {p};
  }

  /**
   One level of an insert before it descends: `n` drawn for the copy of `p`, and the child
   to descend into either already there or made fresh. `s0` and `sm` are the allocator's
   supply before and after.
   */
  ghost predicate Prepared<V>(s: Shape<V>, h0: Heap<V>, s0: set<nat>, p: nat, level: nat, i: nat, n: nat,
                              hm: Heap<V>, sm: set<nat>, child: nat)
    requires level > 0 && p in h0 && h0[p].Interior? && i < |h0[p].children|
  {
    && n in s0 && Wrote(h0, hm, s0 - sm)
    && if h0[p].children[i] != 0 then child == h0[p].children[i] && sm == s0 - {n}
       else child in s0 - {n} && sm == s0 - {n} - {child} && EmptyNode(s, hm, child, level - 1)
  }

  lemma PreparedDescends<V>(s: Shape<V>, h0: Heap<V>, s0: set<nat>, p: nat, level: nat, i: nat, n: nat,
                            hm: Heap<V>, sm: set<nat>, child: nat)
    requires level > 0 && p != 0 && Tree(s, h0, p, level) && i < FANOUT
    requires Prepared(s, h0, s0, p, level, i, n, hm, sm, child)
    ensures s0 - sm == s0 - sm - {n} + {n} && sm <= s0 && n in s0 - sm
    ensures Descends(s, h0, p, level, i, hm, child, s0 - sm - {n})
  {
    if h0[p].children[i] != 0 {
      assert s0 - sm == {n};
      assert s0 - sm - {n} == {};
    } else {
      assert s0 - sm == {n, child};
      assert s0 - sm - {n} == {child};
    }
  }

  /** The child is a tree, and what is left of the supply avoids it. */
  lemma BeforeDescent<V>(s: Shape<V>, h0: Heap<V>, s0: set<nat>, p: nat, level: nat, i: nat, n: nat,
                         hm: Heap<V>, sm: set<nat>, child: nat)
    requires level > 0 && p != 0 && Tree(s, h0, p, level) && i < FANOUT
    requires s0 !! Reach(h0, p, level)
    requires Prepared(s, h0, s0, p, level, i, n, hm, sm, child)
    ensures child != 0 && Tree(s, hm, child, level - 1) && sm !! Reach(hm, child, level - 1)
  {
    var E := s0 - sm - {n};
    PreparedDescends(s, h0, s0, p, level, i, n, hm, sm, child);
    hide Descends, Prepared, Tree, Reach, Wrote, SameValues, Spine;
    assert E + {n} == s0 - sm;
    ChildReady(s, h0, p, level, i, hm, child, E, n);
  }

  /** Once the rebuilt child is linked into the copy, the level is rebuilt. */
  lemma AfterDescent<V>(s: Shape<V>, h0: Heap<V>, s0: set<nat>, p: nat, level: nat, key: nat, v: V, n: nat,
                        hm: Heap<V>, sm: set<nat>, child: nat, h2: Heap<V>, s2: set<nat>, c: nat, fc: seq<nat>)
    requires level > 0 && p != 0 && Tree(s, h0, p, level)
    requires Digit(key, Cap(s.leafCap, level - 1)) < FANOUT
    requires s0 !! Reach(h0, p, level) && 0 !in s0
    requires Prepared(s, h0, s0, p, level, Digit(key, Cap(s.leafCap, level - 1)), n, hm, sm, child)
    requires s2 <= sm && Wrote(hm, h2, sm - s2)
    requires Built(s, hm, child, level - 1, h2, c, level - 1, sm - s2, fc)
    requires PutAt(s, hm, child, level - 1, h2, c, level - 1, Rem(key, Cap(s.leafCap, level - 1)), v)
    ensures Built(s, h0, p, level, h2[n := Interior(h0[p].children[Digit(key, Cap(s.leafCap, level - 1)) := c])], n, level,
                  s0 - s2, [p] + fc)
    ensures PutAt(s, h0, p, level, h2[n := Interior(h0[p].children[Digit(key, Cap(s.leafCap, level - 1)) := c])], n, level, key, v)
  {
    var E := s0 - sm - {n};
    var i := Digit(key, Cap(s.leafCap, level - 1));
    PreparedDescends(s, h0, s0, p, level, i, n, hm, sm, child);
    hide Descends, Tree, Reach, SameValues, Spine, Built, PutAt, Cap, Digit, Rem, Get;
    assert E + {n} == s0 - sm;
    assert s0 - s2 == E + (sm - s2) + {n};
    CowPath(s, h0, p, level, key, v, hm, child, E, h2, c, sm - s2, fc,
            h2[n := Interior(h0[p].children[i := c])], n, [p] + fc);
  }

  // ----- one level of a bottom-up delete -----

  /** A key's value is the value of its remainder under the child its digit selects. */
  lemma GetStep<V>(s: Shape<V>, h: Heap<V>, p: nat, level: nat, k: nat)
    requires level > 0 && p != 0 && Tree(s, h, p, level) && Digit(k, Cap(s.leafCap, level - 1)) < FANOUT
    ensures Get(s, h, p, level, k)
         == Get(s, h, h[p].children[Digit(k, Cap(s.leafCap, level - 1))], level - 1, Rem(k, Cap(s.leafCap, level - 1)))
  {
  }

  lemma KidIsTree<V>(s: Shape<V>, h: Heap<V>, p: nat, level: nat, i: nat)
    requires level > 0 && p != 0 && Tree(s, h, p, level) && i < FANOUT
    ensures Tree(s, h, h[p].children[i], level - 1)
    ensures Reach(h, h[p].children[i], level - 1) <= Reach(h, p, level)
  {
    assert KidReach(h, p, level, i) <= Reach(h, p, level);
  }

  /** Once the copy, drawn after the child was rebuilt, points at the new child, the level is rebuilt. */
  lemma AfterDelete<V>(s: Shape<V>, h0: Heap<V>, s0: set<nat>, p: nat, level: nat, key: nat, v: V,
                       h2: Heap<V>, s2: set<nat>, c: nat, fc: seq<nat>, n: nat)
    requires level > 0 && p != 0 && Tree(s, h0, p, level)
    requires Digit(key, Cap(s.leafCap, level - 1)) < FANOUT
    requires s0 !! Reach(h0, p, level) && 0 !in s0
    requires s2 <= s0 && n in s2 && Wrote(h0, h2, s0 - s2)
    requires Built(s, h0, h0[p].children[Digit(key, Cap(s.leafCap, level - 1))], level - 1, h2, c, level - 1, s0 - s2, fc)
    requires PutAt(s, h0, h0[p].children[Digit(key, Cap(s.leafCap, level - 1))], level - 1, h2, c, level - 1,
                   Rem(key, Cap(s.leafCap, level - 1)), v)
    ensures Built(s, h0, p, level, h2[n := Interior(h0[p].children[Digit(key, Cap(s.leafCap, level - 1)) := c])], n, level,
                  s0 - (s2 - {n}), fc + [p])
    ensures PutAt(s, h0, p, level, h2[n := Interior(h0[p].children[Digit(key, Cap(s.leafCap, level - 1)) := c])], n, level, key, v)
  {
    hide Get, Built, PutAt, Cap, Digit, Rem, Elems, Distinct;
    assert p in h0 && h0[p].Interior? && |h0[p].children| == FANOUT;
    hide Tree;
    var i := Digit(key, Cap(s.leafCap, level - 1));
    var A := s0 - s2;
    assert s0 - (s2 - {n}) == A + {n};
    assert p in Reach(h0, p, level);
    hide Reach;
    WroteTrans(h0, h0, h2, {}, A, A + {n});
    hide Wrote;
    FreedOnce(s, h0, p, level, i, h2, c, A, fc, fc + [p]);
    CowInterior(s, h0, p, level, i, h2, c, A, fc, h2[n := Interior(h0[p].children[i := c])], n, fc + [p]);
    CowInteriorPut(s, h0, p, level, key, v, h2, c, A, fc, h2[n := Interior(h0[p].children[i := c])], n);
  }

  // ----- growth -----

  /** A new root above the old one, with the old root as child 0, means the same. */
  lemma GrowRoot<V>(s: Shape<V>, h0: Heap<V>, p: nat, level: nat, h1: Heap<V>, n: nat)
    requires p != 0 && Tree(s, h0, p, level)
    requires n != 0 && n !in Reach(h0, p, level) && Untouched(h0, h1, Reach(h0, p, level))
    requires n in h1 && h1[n].Interior? && |h1[n].children| == FANOUT && h1[n].children[0] == p
    requires forall i | 1 <= i < FANOUT :: h1[n].children[i] == 0
    ensures Built(s, h0, p, level, h1, n, level + 1, {n}, [])
    ensures SameValues(s, h0, p, level, h1, n, level + 1)
  {
    FrameAll(s, h0, h1, p, level);
    var up := level + 1;
    assert KidReach(h1, n, up, 0) == Reach(h0, p, level);
    forall i | 1 <= i < FANOUT ensures KidReach(h1, n, up, i) == {} {
      assert h1[n].children[i] == 0;
    }
    forall i | 0 <= i < FANOUT ensures Tree(s, h1, h1[n].children[i], level) {
      assert i == 0 || h1[n].children[i] == 0;
    }
    forall k: nat ensures Get(s, h1, n, level + 1, k) == Get(s, h0, p, level, k) {
      var span := Cap(s.leafCap, level);
      if k >= span {
        OutOfReach(s, h0, p, level, k);
        DigitBound(k, span, 1);
        assert Digit(k, span) < FANOUT ==> h1[n].children[Digit(k, span)] == 0;
      }
    }
  }

  /** Rebuilding after growing is rebuilding. */
  lemma BuiltAfterGrowth<V>(s: Shape<V>, h0: Heap<V>, p: nat, l0: nat, h1: Heap<V>, q: nat, l1: nat, A1: set<nat>,
                            h2: Heap<V>, r: nat, l2: nat, A2: set<nat>, f: seq<nat>)
    requires Built(s, h0, p, l0, h1, q, l1, A1, [])
    requires Built(s, h1, q, l1, h2, r, l2, A2, f)
    ensures Built(s, h0, p, l0, h2, r, l2, A1 + A2, f)
  {
    assert Elems([]) == {};
  }

  lemma SameTrans<V>(s: Shape<V>, h0: Heap<V>, p: nat, l0: nat, h1: Heap<V>, q: nat, l1: nat, h2: Heap<V>, r: nat, l2: nat)
    requires SameValues(s, h0, p, l0, h1, q, l1) && SameValues(s, h1, q, l1, h2, r, l2)
    ensures SameValues(s, h0, p, l0, h2, r, l2)
  {
    forall k: nat ensures Get(s, h2, r, l2, k) == Get(s, h0, p, l0, k) {
      assert Get(s, h1, q, l1, k) == Get(s, h0, p, l0, k);
    }
  }

  lemma BuiltSelf<V>(s: Shape<V>, h: Heap<V>, p: nat, level: nat)
    requires p != 0 && Tree(s, h, p, level)
    ensures Built(s, h, p, level, h, p, level, {}, []) && SameValues(s, h, p, level, h, p, level)
  {
  }
}
