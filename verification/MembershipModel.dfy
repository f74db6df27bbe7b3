/**
 What a two-level membership index means. The outer tree maps a tag to a packed (depth,
 root) pair; each inner tree's keys are the handles that carry the tag.
 */
module MembershipModel {
  import opened Pages
  import opened RadixTree
  import opened MembershipPages

  const INNER_ROOT_LIMIT: nat := 0x400_0000_0000_0000

  /** Depth in the top 6 bits, root in the low 58. */
  function PackInner(root: nat, depth: nat): u64
    requires root < INNER_ROOT_LIMIT && depth < 64
  {
    depth * INNER_ROOT_LIMIT + root
  }

  function UnpackInner(packed: u64): (nat, nat) {
    (packed % INNER_ROOT_LIMIT, packed / INNER_ROOT_LIMIT)
  }

  /** Packing is lossless, and only the absent pair packs to 0. */
  lemma PackRoundTrip(root: nat, depth: nat)
    requires root < INNER_ROOT_LIMIT && depth < 64
    ensures UnpackInner(PackInner(root, depth)) == (root, depth)
    ensures PackInner(root, depth) == 0 <==> root == 0 && depth == 0
  {
  }

  lemma UnpackRoundTrip(packed: u64)
    ensures var (root, depth) := UnpackInner(packed);
            root < INNER_ROOT_LIMIT && depth < 64 && PackInner(root, depth) == packed
  {
  }

  // ----- reading an index -----

  ghost function Packed(h: Heap<nat>, R: nat, D: nat, tag: nat): nat {
    Get(SHAPE, h, R, D, tag)
  }

  ghost function InnerRoot(packed: nat): nat {
    packed % INNER_ROOT_LIMIT
  }

  ghost function InnerDepth(packed: nat): nat {
    packed / INNER_ROOT_LIMIT
  }

  ghost function InnerReach(h: Heap<nat>, packed: nat): set<nat> {
    Reach(h, InnerRoot(packed), InnerDepth(packed))
  }

  /** The handles stored in the inner tree a packed value names. */
  ghost function Handles(h: Heap<nat>, packed: nat): set<nat> {
    set k: nat | 0 <= k <= U64_MAX && Get(SHAPE, h, InnerRoot(packed), InnerDepth(packed), k) != 0
  }

  /** The index as a map from tag to the set of its handles. */
  ghost function Index(h: Heap<nat>, R: nat, D: nat): map<nat, set<nat>> {
    map tag: nat | 0 <= tag <= U64_MAX && Packed(h, R, D, tag) != 0 :: Handles(h, Packed(h, R, D, tag))
  }

  /** The pages of every inner tree except `skip`'s. */
  ghost function Inners(h: Heap<nat>, R: nat, D: nat, skip: Option<nat>): set<nat> {
    set tag: nat, q | 0 <= tag <= U64_MAX && Some(tag) != skip && q in InnerReach(h, Packed(h, R, D, tag)) :: q
  }

  ghost function Occupies(h: Heap<nat>, R: nat, D: nat): set<nat> {
    Reach(h, R, D) + Inners(h, R, D, None)
  }

  /** A packed value names a well-formed, non-empty tree clear of the outer tree's pages. */
  ghost predicate InnerOk(h: Heap<nat>, packed: nat, outer: set<nat>) {
    && 0 < InnerRoot(packed) && InnerDepth(packed) <= MAX_DEPTH
    && Tree(SHAPE, h, InnerRoot(packed), InnerDepth(packed))
    && InnerReach(h, packed) !! outer
    && (forall k: nat | k > U64_MAX :: Get(SHAPE, h, InnerRoot(packed), InnerDepth(packed), k) == 0)
    && Handles(h, packed) != {}
  }

  ghost predicate InnersOk(h: Heap<nat>, R: nat, D: nat) {
    && (forall tag: nat | Packed(h, R, D, tag) != 0 ::
          0 <= tag <= U64_MAX && Packed(h, R, D, tag) <= U64_MAX && InnerOk(h, Packed(h, R, D, tag), Reach(h, R, D)))
    && (forall s: nat, t: nat | s < t && Packed(h, R, D, s) != 0 && Packed(h, R, D, t) != 0 ::
          InnerReach(h, Packed(h, R, D, s)) !! InnerReach(h, Packed(h, R, D, t)))
  }

  ghost predicate Valid(h: Heap<nat>, R: nat, D: nat) {
    && 0 < R < INNER_ROOT_LIMIT && D <= MAX_DEPTH && Tree(SHAPE, h, R, D) && Spine(h, R, D)
    && InnersOk(h, R, D)
    && (forall q | q in Occupies(h, R, D) :: q < INNER_ROOT_LIMIT)
  }

  // ----- replacing one tag's value -----

  /**
   `h1` is an index at (R, D). In `h4`, (R', D') is the outer tree with `packed'` at `tag`,
   rebuilt from pages `B`; the pages `A` went into the tag's inner tree, which supersedes
   `f1`. Nothing else was written.
   */
  ghost predicate Replaced(h1: Heap<nat>, R: nat, D: nat, tag: nat, A: set<nat>, f1: seq<nat>,
                           h4: Heap<nat>, R': nat, D': nat, packed': nat, B: set<nat>, f2: seq<nat>)
  {
    && Wrote(h1, h4, A + B) && A !! B && A + B !! Occupies(h1, R, D)
    && (forall q | q in A + B :: q < INNER_ROOT_LIMIT)
    && Built(SHAPE, h1, R, D, h4, R', D', B, f2)
    && PutAt(SHAPE, h1, R, D, h4, R', D', tag, packed')
    && InnerReach(h1, Packed(h1, R, D, tag)) + A == InnerReach(h4, packed') + Elems(f1)
    && InnerReach(h4, packed') !! Elems(f1) && Distinct(f1)
  }

  lemma InnerInOccupies(h: Heap<nat>, R: nat, D: nat, tag: nat)
    requires Valid(h, R, D)
    ensures InnerReach(h, Packed(h, R, D, tag)) <= Occupies(h, R, D)
    ensures InnerReach(h, Packed(h, R, D, tag)) !! Reach(h, R, D)
    ensures Packed(h, R, D, tag) == 0 ==> InnerReach(h, Packed(h, R, D, tag)) == {}
  {
    hide Tree, Get, Spine;
    if Packed(h, R, D, tag) == 0 {
      assert InnerRoot(0) == 0;
    }
    forall q | q in InnerReach(h, Packed(h, R, D, tag)) ensures q in Inners(h, R, D, None) {
    }
  }

  /** The other tags' inner trees are untouched. */
  lemma OtherInner(h1: Heap<nat>, R: nat, D: nat, tag: nat, A: set<nat>, f1: seq<nat>,
                   h4: Heap<nat>, R': nat, D': nat, packed': nat, B: set<nat>, f2: seq<nat>, t: nat)
    requires Valid(h1, R, D) && Replaced(h1, R, D, tag, A, f1, h4, R', D', packed', B, f2) && t != tag
    ensures Packed(h4, R', D', t) == Packed(h1, R, D, t)
    ensures InnerReach(h4, Packed(h1, R, D, t)) == InnerReach(h1, Packed(h1, R, D, t))
    ensures Handles(h4, Packed(h1, R, D, t)) == Handles(h1, Packed(h1, R, D, t))
    ensures Packed(h1, R, D, t) != 0 ==> InnerOk(h4, Packed(h1, R, D, t), Reach(h4, R', D'))
  {
    hide Tree, Get, Spine, Occupies, Reach;
    var p := Packed(h1, R, D, t);
    InnerInOccupies(h1, R, D, t);
    WroteKeeps(h1, h4, A + B, InnerReach(h1, p));
    FrameAll(SHAPE, h1, h4, InnerRoot(p), InnerDepth(p));
    assert Reach(h4, R', D') <= Reach(h1, R, D) + B;
  }

  /** What the tag's own inner tree is disjoint from. */
  lemma OwnInner(h1: Heap<nat>, R: nat, D: nat, tag: nat, A: set<nat>, f1: seq<nat>,
                 h4: Heap<nat>, R': nat, D': nat, packed': nat, B: set<nat>, f2: seq<nat>, t: nat)
    requires Valid(h1, R, D) && Replaced(h1, R, D, tag, A, f1, h4, R', D', packed', B, f2) && t != tag
    ensures InnerReach(h4, packed') !! Reach(h4, R', D')
    ensures InnerReach(h4, packed') !! InnerReach(h1, Packed(h1, R, D, t))
    ensures Elems(f1) !! Reach(h4, R', D') && Elems(f1) !! InnerReach(h1, Packed(h1, R, D, t))
    ensures Elems(f2) !! InnerReach(h4, packed') && Elems(f2) !! InnerReach(h1, Packed(h1, R, D, t))
    ensures Elems(f1) !! Elems(f2)
  {
    var X, Y := InnerReach(h1, Packed(h1, R, D, tag)), InnerReach(h1, Packed(h1, R, D, t));
    InnerInOccupies(h1, R, D, tag);
    InnerInOccupies(h1, R, D, t);
    assert X !! Y by {
      hide Tree, Get, Spine, Occupies, Reach, InnerOk;
    }
    hide Tree, Get, Spine, Inners, InnersOk, InnerReach, Reach, Wrote, PutAt;
    assert Reach(h4, R', D') + Elems(f2) <= Reach(h1, R, D) + B;
    assert InnerReach(h4, packed') + Elems(f1) <= X + A;
  }

  /** The index is valid again. */
  lemma ReplacedValid(h1: Heap<nat>, R: nat, D: nat, tag: nat, A: set<nat>, f1: seq<nat>,
                      h4: Heap<nat>, R': nat, D': nat, packed': nat, B: set<nat>, f2: seq<nat>)
    requires Valid(h1, R, D) && Replaced(h1, R, D, tag, A, f1, h4, R', D', packed', B, f2)
    requires D' <= MAX_DEPTH && tag <= U64_MAX && packed' <= U64_MAX
    requires packed' != 0 ==>
               && 0 < InnerRoot(packed') && InnerDepth(packed') <= MAX_DEPTH
               && Tree(SHAPE, h4, InnerRoot(packed'), InnerDepth(packed'))
               && (forall k: nat | k > U64_MAX :: Get(SHAPE, h4, InnerRoot(packed'), InnerDepth(packed'), k) == 0)
               && Handles(h4, packed') != {}
    ensures InnersOk(h4, R', D')
  {
    hide Tree, Get, Spine, Occupies, Reach, Inners, Wrote, Built, Handles;
    forall t: nat | Packed(h4, R', D', t) != 0
      ensures 0 <= t <= U64_MAX && Packed(h4, R', D', t) <= U64_MAX && InnerOk(h4, Packed(h4, R', D', t), Reach(h4, R', D'))
    {
      if t != tag {
        OtherInner(h1, R, D, tag, A, f1, h4, R', D', packed', B, f2, t);
      } else {
        OwnInner(h1, R, D, tag, A, f1, h4, R', D', packed', B, f2, t + 1);
      }
    }
    forall s: nat, t: nat | s < t && Packed(h4, R', D', s) != 0 && Packed(h4, R', D', t) != 0
      ensures InnerReach(h4, Packed(h4, R', D', s)) !! InnerReach(h4, Packed(h4, R', D', t))
    {
      hide InnerOk;
      if s != tag {
        OtherInner(h1, R, D, tag, A, f1, h4, R', D', packed', B, f2, s);
        OwnInner(h1, R, D, tag, A, f1, h4, R', D', packed', B, f2, s);
      }
      if t != tag {
        OtherInner(h1, R, D, tag, A, f1, h4, R', D', packed', B, f2, t);
        OwnInner(h1, R, D, tag, A, f1, h4, R', D', packed', B, f2, t);
      }
    }
  }

  lemma SplitInners(h: Heap<nat>, R: nat, D: nat, tag: u64)
    ensures Inners(h, R, D, None) == Inners(h, R, D, Some(tag)) + InnerReach(h, Packed(h, R, D, tag))
  {
    hide Get, Reach;
  }

  lemma SameInners(h1: Heap<nat>, R: nat, D: nat, tag: nat, A: set<nat>, f1: seq<nat>,
                   h4: Heap<nat>, R': nat, D': nat, packed': nat, B: set<nat>, f2: seq<nat>)
    requires Valid(h1, R, D) && Replaced(h1, R, D, tag, A, f1, h4, R', D', packed', B, f2)
    ensures Inners(h4, R', D', Some(tag)) == Inners(h1, R, D, Some(tag))
    ensures Inners(h1, R, D, Some(tag)) !! InnerReach(h4, packed')
    ensures Inners(h1, R, D, Some(tag)) !! Elems(f1) + Elems(f2)
  {
    hide Valid, Replaced, Get, Reach, Packed, InnerReach, InnerOk, Handles;
    forall t: nat | t != tag
      ensures InnerReach(h4, Packed(h4, R', D', t)) == InnerReach(h1, Packed(h1, R, D, t))
      ensures InnerReach(h1, Packed(h1, R, D, t)) !! InnerReach(h4, packed')
      ensures InnerReach(h1, Packed(h1, R, D, t)) !! Elems(f1) + Elems(f2)
    {
      OtherInner(h1, R, D, tag, A, f1, h4, R', D', packed', B, f2, t);
      OwnInner(h1, R, D, tag, A, f1, h4, R', D', packed', B, f2, t);
    }
  }

  lemma IndexSets(outer: set<nat>, X: set<nat>, rest: set<nat>, A: set<nat>, B: set<nat>,
                  outer': set<nat>, X': set<nat>, F1: set<nat>, F2: set<nat>)
    requires outer + B == outer' + F2 && outer' !! F2 && X + A == X' + F1 && X' !! F1
    requires F1 !! outer' && F2 !! X' && rest !! F1 + F2
    ensures outer + (rest + X) + (A + B) == outer' + (rest + X') + (F1 + F2)
    ensures outer' + (rest + X') !! F1 + F2
  {
    assert forall q | q in outer + (rest + X) + (A + B) :: q in outer + B || q in X + A || q in rest;
    assert forall q | q in outer' + (rest + X') + (F1 + F2) :: q in outer' + F2 || q in X' + F1 || q in rest;
  }

  /** Every page of the index is accounted for: still in use, or on one of the two lists, once. */
  lemma ReplacedConserves(h1: Heap<nat>, R: nat, D: nat, tag: u64, A: set<nat>, f1: seq<nat>,
                          h4: Heap<nat>, R': nat, D': nat, packed': nat, B: set<nat>, f2: seq<nat>)
    requires Valid(h1, R, D) && Replaced(h1, R, D, tag, A, f1, h4, R', D', packed', B, f2)
    ensures Conserved(Occupies(h1, R, D), A + B, Occupies(h4, R', D'), f1 + f2)
    ensures forall q | q in Occupies(h4, R', D') :: q < INNER_ROOT_LIMIT
  {
    hide Get, Reach, Inners, InnerReach, Tree, Wrote, InnersOk, Spine, Elems;
    SplitInners(h1, R, D, tag);
    SplitInners(h4, R', D', tag);
    SameInners(h1, R, D, tag, A, f1, h4, R', D', packed', B, f2);
    assert Packed(h4, R', D', tag) == packed';
    OwnInner(h1, R, D, tag, A, f1, h4, R', D', packed', B, f2, tag + 1);
    ElemsConcat(f1, f2);
    IndexSets(Reach(h1, R, D), InnerReach(h1, Packed(h1, R, D, tag)), Inners(h1, R, D, Some(tag)), A, B,
              Reach(h4, R', D'), InnerReach(h4, packed'), Elems(f1), Elems(f2));
    hide PutAt, Replaced, Valid;
    assert Occupies(h1, R, D) + (A + B) == Occupies(h4, R', D') + Elems(f1 + f2);
  }

  lemma PackedAfter(h1: Heap<nat>, R: nat, D: nat, tag: nat, A: set<nat>, f1: seq<nat>,
                    h4: Heap<nat>, R': nat, D': nat, packed': nat, B: set<nat>, f2: seq<nat>)
    requires Replaced(h1, R, D, tag, A, f1, h4, R', D', packed', B, f2)
    ensures Packed(h4, R', D', tag) == packed'
  {
    hide Get, Reach, Tree, Wrote, Built, Occupies;
  }

  /** Exactly one tag of the index changed. */
  lemma ReplacedIndex(h1: Heap<nat>, R: nat, D: nat, tag: u64, A: set<nat>, f1: seq<nat>,
                      h4: Heap<nat>, R': nat, D': nat, packed': nat, B: set<nat>, f2: seq<nat>)
    requires Valid(h1, R, D) && Replaced(h1, R, D, tag, A, f1, h4, R', D', packed', B, f2)
    ensures Index(h4, R', D')
         == if packed' == 0 then Index(h1, R, D) - {tag} else Index(h1, R, D)[tag := Handles(h4, packed')]
  {
    hide Valid, Replaced, Get, Reach, Packed, InnerReach, InnerOk, Handles;
    PackedAfter(h1, R, D, tag, A, f1, h4, R', D', packed', B, f2);
    forall t: nat | t != tag
      ensures Packed(h4, R', D', t) == Packed(h1, R, D, t)
      ensures Handles(h4, Packed(h4, R', D', t)) == Handles(h1, Packed(h1, R, D, t))
    {
      OtherInner(h1, R, D, tag, A, f1, h4, R', D', packed', B, f2, t);
    }
  }

  /** An index is not disturbed by writes to pages it does not occupy. */
  lemma IndexFrame(h: Heap<nat>, h': Heap<nat>, A: set<nat>, R: nat, D: nat)
    requires Valid(h, R, D) && Wrote(h, h', A) && A !! Occupies(h, R, D)
    ensures Valid(h', R, D) && Index(h', R, D) == Index(h, R, D) && Occupies(h', R, D) == Occupies(h, R, D)
    ensures forall t: nat :: Packed(h', R, D, t) == Packed(h, R, D, t)
  {
    hide Get, Reach, Tree, Spine, Occupies, Packed, InnerReach, Handles, InnerOk, Wrote;
    IndexFrameOuter(h, h', A, R, D);
    forall t: nat
      ensures InnerReach(h', Packed(h, R, D, t)) == InnerReach(h, Packed(h, R, D, t))
      ensures Handles(h', Packed(h, R, D, t)) == Handles(h, Packed(h, R, D, t))
      ensures Packed(h, R, D, t) != 0 ==> InnerOk(h', Packed(h, R, D, t), Reach(h, R, D))
    {
      IndexFrameInner(h, h', A, R, D, t);
    }
    IndexFrameOccupies(h, h', R, D);
  }

  lemma IndexFrameOuter(h: Heap<nat>, h': Heap<nat>, A: set<nat>, R: nat, D: nat)
    requires Wrote(h, h', A) && A !! Occupies(h, R, D)
    ensures Reach(h', R, D) == Reach(h, R, D)
    ensures Tree(SHAPE, h', R, D) == Tree(SHAPE, h, R, D) && Spine(h', R, D) == Spine(h, R, D)
    ensures forall t: nat :: Packed(h', R, D, t) == Packed(h, R, D, t)
  {
    hide Get, Reach, Tree, Spine, Inners;
    assert Reach(h, R, D) <= Occupies(h, R, D);
    WroteKeeps(h, h', A, Reach(h, R, D));
    FrameAll(SHAPE, h, h', R, D);
  }

  lemma IndexFrameInner(h: Heap<nat>, h': Heap<nat>, A: set<nat>, R: nat, D: nat, t: nat)
    requires Valid(h, R, D) && Wrote(h, h', A) && A !! Occupies(h, R, D)
    ensures InnerReach(h', Packed(h, R, D, t)) == InnerReach(h, Packed(h, R, D, t))
    ensures Handles(h', Packed(h, R, D, t)) == Handles(h, Packed(h, R, D, t))
    ensures Packed(h, R, D, t) != 0 ==> InnerOk(h', Packed(h, R, D, t), Reach(h, R, D))
  {
    hide Get, Reach, Tree, Spine, Occupies, Packed;
    var p := Packed(h, R, D, t);
    InnerInOccupies(h, R, D, t);
    WroteKeeps(h, h', A, InnerReach(h, p));
    FrameAll(SHAPE, h, h', InnerRoot(p), InnerDepth(p));
  }

  lemma IndexFrameOccupies(h: Heap<nat>, h': Heap<nat>, R: nat, D: nat)
    requires Reach(h', R, D) == Reach(h, R, D)
    requires forall t: nat :: Packed(h', R, D, t) == Packed(h, R, D, t)
    requires forall t: nat :: InnerReach(h', Packed(h, R, D, t)) == InnerReach(h, Packed(h, R, D, t))
    ensures Occupies(h', R, D) == Occupies(h, R, D)
  {
    hide Packed, InnerReach, Reach;
  }

  /** The inner tree at (ni, di) replaces the one `packed` names, using pages `A` and superseding `f`. */
  ghost predicate BuiltFrom(h1: Heap<nat>, packed: nat, h3: Heap<nat>, ni: nat, di: nat, A: set<nat>, f: seq<nat>) {
    && ni != 0 && Tree(SHAPE, h3, ni, di)
    && InnerReach(h1, packed) + A == Reach(h3, ni, di) + Elems(f)
    && Reach(h3, ni, di) !! Elems(f) && Distinct(f)
  }

  // ----- assembling an operation from its inner and outer parts -----

  /** A fresh outer leaf is the empty index. */
  lemma EmptyIndex(h: Heap<nat>, R: nat)
    requires EmptyNode(SHAPE, h, R, 0) && R < INNER_ROOT_LIMIT
    ensures Valid(h, R, 0) && Index(h, R, 0) == map[] && Occupies(h, R, 0) == {R}
  {
    EmptyNodeIsTree(SHAPE, h, R, 0);
    assert forall t: nat :: Packed(h, R, 0, t) == 0;
    assert InnerReach(h, 0) == {};
    assert Inners(h, R, 0, None) == {};
  }

  /** The outer tree is the same tree after the inner one was rebuilt. */
  lemma OuterAcross(h1: Heap<nat>, R: nat, D: nat, A: set<nat>, h3: Heap<nat>, tag: nat, v: nat,
                    h4: Heap<nat>, R': nat, D': nat, B: set<nat>, f2: seq<nat>)
    requires Wrote(h1, h3, A) && A !! Reach(h1, R, D)
    requires Built(SHAPE, h3, R, D, h4, R', D', B, f2) && PutAt(SHAPE, h3, R, D, h4, R', D', tag, v)
    ensures Built(SHAPE, h1, R, D, h4, R', D', B, f2) && PutAt(SHAPE, h1, R, D, h4, R', D', tag, v)
  {
    hide Tree, Reach, Get, Spine;
    WroteKeeps(h1, h3, A, Reach(h1, R, D));
    FrameAll(SHAPE, h1, h3, R, D);
    PutAfterSame(SHAPE, h1, R, D, h3, R, D, h4, R', D', tag, v);
  }

  /** The rebuilt inner tree survives the rebuilding of the outer one. */
  lemma InnerAcross(h1: Heap<nat>, R: nat, D: nat, tag: u64, key: nat, v: nat, A: set<nat>, f1: seq<nat>,
                    h3: Heap<nat>, ni: nat, di: nat, h4: Heap<nat>, B: set<nat>)
    requires Valid(h1, R, D) && B !! Occupies(h1, R, D) && A !! B && Wrote(h3, h4, B)
    requires BuiltFrom(h1, Packed(h1, R, D, tag), h3, ni, di, A, f1)
    requires PutAt(SHAPE, h1, InnerRoot(Packed(h1, R, D, tag)), InnerDepth(Packed(h1, R, D, tag)), h3, ni, di, key, v)
    ensures Reach(h4, ni, di) == Reach(h3, ni, di) && Tree(SHAPE, h4, ni, di)
    ensures PutAt(SHAPE, h1, InnerRoot(Packed(h1, R, D, tag)), InnerDepth(Packed(h1, R, D, tag)), h4, ni, di, key, v)
  {
    hide Tree, Reach, Get, Spine, Valid, Occupies, Packed;
    InnerInOccupies(h1, R, D, tag);
    assert Reach(h3, ni, di) <= InnerReach(h1, Packed(h1, R, D, tag)) + A;
    WroteKeeps(h3, h4, B, Reach(h3, ni, di));
    FrameAll(SHAPE, h3, h4, ni, di);
  }

  /** The handles of the rebuilt inner tree. */
  lemma HandlesAfter(h1: Heap<nat>, R: nat, D: nat, tag: u64, key: u64, v: nat, h4: Heap<nat>, ni: nat, di: nat)
    requires Valid(h1, R, D) && ni < INNER_ROOT_LIMIT && di < 64
    requires PutAt(SHAPE, h1, InnerRoot(Packed(h1, R, D, tag)), InnerDepth(Packed(h1, R, D, tag)), h4, ni, di, key, v)
    ensures Handles(h4, PackInner(ni, di))
         == if v != 0 then Handles(h1, Packed(h1, R, D, tag)) + {key} else Handles(h1, Packed(h1, R, D, tag)) - {key}
    ensures forall k: nat | k > U64_MAX :: Get(SHAPE, h4, ni, di, k) == 0
  {
    hide Tree, Reach, Spine, Occupies;
    PackRoundTrip(ni, di);
    var p := Packed(h1, R, D, tag);
    forall k: nat | k > U64_MAX ensures Get(SHAPE, h1, InnerRoot(p), InnerDepth(p), k) == 0 {
      if p == 0 {
        assert InnerRoot(p) == 0;
      } else {
        assert InnerOk(h1, p, Reach(h1, R, D));
      }
    }
  }

  lemma Assemble(h1: Heap<nat>, R: nat, D: nat, tag: u64, key: u64, v: nat, A: set<nat>, f1: seq<nat>,
                 h3: Heap<nat>, ni: nat, di: nat, h4: Heap<nat>, R': nat, D': nat, B: set<nat>, f2: seq<nat>)
    requires Valid(h1, R, D) && ni < INNER_ROOT_LIMIT && di <= MAX_DEPTH
    requires A + B !! Occupies(h1, R, D) && A !! B && (forall q | q in A + B :: q < INNER_ROOT_LIMIT)
    requires Wrote(h1, h3, A) && Wrote(h3, h4, B)
    requires BuiltFrom(h1, Packed(h1, R, D, tag), h3, ni, di, A, f1)
    requires PutAt(SHAPE, h1, InnerRoot(Packed(h1, R, D, tag)), InnerDepth(Packed(h1, R, D, tag)), h3, ni, di, key, v)
    requires Built(SHAPE, h3, R, D, h4, R', D', B, f2) && PutAt(SHAPE, h3, R, D, h4, R', D', tag, PackInner(ni, di))
    ensures Replaced(h1, R, D, tag, A, f1, h4, R', D', PackInner(ni, di), B, f2)
    ensures Tree(SHAPE, h4, ni, di)
    ensures PutAt(SHAPE, h1, InnerRoot(Packed(h1, R, D, tag)), InnerDepth(Packed(h1, R, D, tag)), h4, ni, di, key, v)
  {
    hide Tree, Reach, Get, Spine, Valid, Packed, PutAt, Inners;
    PackRoundTrip(ni, di);
    WroteTrans(h1, h3, h4, A, B, A + B);
    OuterAcross(h1, R, D, A, h3, tag, PackInner(ni, di), h4, R', D', B, f2);
    InnerAcross(h1, R, D, tag, key, v, A, f1, h3, ni, di, h4, B);
    hide Wrote;
  }

  /** Setting one handle of one tag: the index gains or loses exactly that pair. */
  lemma AssembleSet(h1: Heap<nat>, R: nat, D: nat, tag: u64, key: u64, v: nat, A: set<nat>, f1: seq<nat>,
                    h3: Heap<nat>, ni: nat, di: nat, h4: Heap<nat>, R': nat, D': nat, B: set<nat>, f2: seq<nat>)
    requires Valid(h1, R, D) && 0 < ni < INNER_ROOT_LIMIT && di <= MAX_DEPTH && 0 < R' < INNER_ROOT_LIMIT && D' <= MAX_DEPTH
    requires A + B !! Occupies(h1, R, D) && A !! B && (forall q | q in A + B :: q < INNER_ROOT_LIMIT)
    requires Wrote(h1, h3, A) && Wrote(h3, h4, B)
    requires BuiltFrom(h1, Packed(h1, R, D, tag), h3, ni, di, A, f1)
    requires PutAt(SHAPE, h1, InnerRoot(Packed(h1, R, D, tag)), InnerDepth(Packed(h1, R, D, tag)), h3, ni, di, key, v)
    requires Built(SHAPE, h3, R, D, h4, R', D', B, f2) && PutAt(SHAPE, h3, R, D, h4, R', D', tag, PackInner(ni, di))
    requires HandlesSet(h1, Packed(h1, R, D, tag), key, v) != {}
    ensures Valid(h4, R', D')
    ensures Index(h4, R', D') == Index(h1, R, D)[tag := HandlesSet(h1, Packed(h1, R, D, tag), key, v)]
    ensures Conserved(Occupies(h1, R, D), A + B, Occupies(h4, R', D'), f1 + f2)
  {
    hide Tree, Reach, Get, Packed, Inners, Wrote, PutAt, Occupies, Handles, InnersOk, InnerReach, Conserved, Index, Replaced;
    Assemble(h1, R, D, tag, key, v, A, f1, h3, ni, di, h4, R', D', B, f2);
    HandlesAfter(h1, R, D, tag, key, v, h4, ni, di);
    PackRoundTrip(ni, di);
    ReplacedValid(h1, R, D, tag, A, f1, h4, R', D', PackInner(ni, di), B, f2);
    ReplacedConserves(h1, R, D, tag, A, f1, h4, R', D', PackInner(ni, di), B, f2);
    ReplacedIndex(h1, R, D, tag, A, f1, h4, R', D', PackInner(ni, di), B, f2);
    ReplacedTree(h1, R, D, tag, A, f1, h4, R', D', PackInner(ni, di), B, f2);
  }

  lemma ReplacedTree(h1: Heap<nat>, R: nat, D: nat, tag: nat, A: set<nat>, f1: seq<nat>,
                     h4: Heap<nat>, R': nat, D': nat, packed': nat, B: set<nat>, f2: seq<nat>)
    requires Valid(h1, R, D) && Replaced(h1, R, D, tag, A, f1, h4, R', D', packed', B, f2)
    ensures Tree(SHAPE, h4, R', D') && Spine(h4, R', D')
  {
    hide Tree, Reach, Get, Wrote, PutAt, Occupies, InnersOk, InnerReach;
  }

  ghost function HandlesSet(h: Heap<nat>, packed: nat, key: nat, v: nat): set<nat> {
    if v != 0 then Handles(h, packed) + {key} else Handles(h, packed) - {key}
  }

  /** Removing a tag's last handle: the whole inner tree is freed and the tag disappears. */
  lemma AssembleDrop(h1: Heap<nat>, R: nat, D: nat, tag: u64, key: u64, A: set<nat>, f1: seq<nat>, g: seq<nat>,
                     h3: Heap<nat>, ni: nat, di: nat, h4: Heap<nat>, R': nat, D': nat, B: set<nat>, f2: seq<nat>)
    requires Valid(h1, R, D) && 0 < R' < INNER_ROOT_LIMIT && D' <= MAX_DEPTH
    requires A + B !! Occupies(h1, R, D) && A !! B && (forall q | q in A + B :: q < INNER_ROOT_LIMIT)
    requires Wrote(h1, h3, A) && Wrote(h3, h4, B)
    requires BuiltFrom(h1, Packed(h1, R, D, tag), h3, ni, di, A, f1)
    requires Elems(g) == Reach(h3, ni, di) && Distinct(g)
    requires Built(SHAPE, h3, R, D, h4, R', D', B, f2) && PutAt(SHAPE, h3, R, D, h4, R', D', tag, 0)
    ensures Valid(h4, R', D')
    ensures Index(h4, R', D') == Index(h1, R, D) - {tag}
    ensures Conserved(Occupies(h1, R, D), A + B, Occupies(h4, R', D'), f1 + g + f2)
  {
    hide Tree, Reach, Get, Packed, Inners, Wrote, PutAt, Handles, InnersOk, Conserved, Index, Spine;
    DropReplaced(h1, R, D, tag, A, f1, g, h3, ni, di, h4, R', D', B, f2);
    hide Replaced;
    ReplacedValid(h1, R, D, tag, A, f1 + g, h4, R', D', 0, B, f2);
    ReplacedConserves(h1, R, D, tag, A, f1 + g, h4, R', D', 0, B, f2);
    ReplacedIndex(h1, R, D, tag, A, f1 + g, h4, R', D', 0, B, f2);
    ReplacedTree(h1, R, D, tag, A, f1 + g, h4, R', D', 0, B, f2);
  }

  lemma DropReplaced(h1: Heap<nat>, R: nat, D: nat, tag: u64, A: set<nat>, f1: seq<nat>, g: seq<nat>,
                     h3: Heap<nat>, ni: nat, di: nat, h4: Heap<nat>, R': nat, D': nat, B: set<nat>, f2: seq<nat>)
    requires Valid(h1, R, D)
    requires A + B !! Occupies(h1, R, D) && A !! B && (forall q | q in A + B :: q < INNER_ROOT_LIMIT)
    requires Wrote(h1, h3, A) && Wrote(h3, h4, B)
    requires BuiltFrom(h1, Packed(h1, R, D, tag), h3, ni, di, A, f1)
    requires Elems(g) == Reach(h3, ni, di) && Distinct(g)
    requires Built(SHAPE, h3, R, D, h4, R', D', B, f2) && PutAt(SHAPE, h3, R, D, h4, R', D', tag, 0)
    ensures Replaced(h1, R, D, tag, A, f1 + g, h4, R', D', 0, B, f2)
  {
    hide Tree, Get, Spine, Valid, Packed, PutAt, Inners, Elems, Distinct;
    assert InnerRoot(0) == 0;
    assert InnerReach(h4, 0) == {};
    hide Reach;
    WroteTrans(h1, h3, h4, A, B, A + B);
    hide Wrote;
    OuterAcross(h1, R, D, A, h3, tag, 0, h4, R', D', B, f2);
    ElemsConcat(f1, g);
  }
}
