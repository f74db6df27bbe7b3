/**
 The left-to-right scan of the freemap tree for the lowest free id at or above a bound. Subtrees
 are located by a base id that saturates at 2^64 - 1; `base` below is always the true one.
 */
module FreeMapScan {
  import opened Pages
  import opened RadixTree
  import opened RadixItems
  import opened FreeMap
  import opened FreeMapPages

  ghost function FreeBit(pages: map<nat, Image>, page: nat, level: nat, k: nat): bool {
    Get(SHAPE, Nodes(pages), page, level, k)
  }

  ghost predicate IsTree(pages: map<nat, Image>, page: nat, level: nat) {
    0 < page && Tree(SHAPE, Nodes(pages), page, level)
  }

  /** No free id at or above `lo` among the first `n` keys of the subtree. */
  ghost predicate Nothing(pages: map<nat, Image>, page: nat, level: nat, base: nat, lo: nat, n: nat) {
    forall k: nat | k < n && FreeBit(pages, page, level, k) :: base + k < lo
  }

  /** `x` is the lowest free id at or above `lo`. */
  ghost predicate Lowest(pages: map<nat, Image>, page: nat, level: nat, base: nat, lo: nat, x: nat) {
    && x >= lo && x >= base && FreeBit(pages, page, level, x - base)
    && forall k: nat | FreeBit(pages, page, level, k) && base + k >= lo :: x <= base + k
  }

  ghost predicate Scanned(pages: map<nat, Image>, page: nat, level: nat, base: nat, lo: nat, r: Option<nat>) {
    match r
    case None => Nothing(pages, page, level, base, lo, Cap(BITS_PER_LEAF, level))
    case Some(x) => Lowest(pages, page, level, base, lo, x)
  }

  /** The subtree holds no id past 2^64 - 1. */
  ghost predicate Fits(pages: map<nat, Image>, page: nat, level: nat, base: nat) {
    forall k: nat | FreeBit(pages, page, level, k) :: base + k <= U64_MAX
  }

  /** What is true of a bit of a child is true of the parent's bit with that digit. */
  lemma KidBit(pages: map<nat, Image>, page: nat, level: nat, i: nat, k: nat)
    requires level > 0 && IsTree(pages, page, level) && i < FANOUT && page in pages
    requires i * Cap(BITS_PER_LEAF, level - 1) <= k < i * Cap(BITS_PER_LEAF, level - 1) + Cap(BITS_PER_LEAF, level - 1)
    ensures FreeBit(pages, page, level, k)
        == FreeBit(pages, ReadSlot(pages[page], i), level - 1, k - i * Cap(BITS_PER_LEAF, level - 1))
  {
    hide Tree, Cap, Get, ReadSlot, Reach;
    KidSlot(pages, page, level, i);
    KidGet(SHAPE, Nodes(pages), page, level, i, k);
  }

  lemma KidSlot(pages: map<nat, Image>, page: nat, level: nat, i: nat)
    requires level > 0 && IsTree(pages, page, level) && i < FANOUT && page in pages
    ensures page in Nodes(pages) && Nodes(pages)[page].Interior? && |Nodes(pages)[page].children| == FANOUT
    ensures Nodes(pages)[page].children[i] == ReadSlot(pages[page], i)
    ensures Tree(SHAPE, Nodes(pages), ReadSlot(pages[page], i), level - 1)
  {
    RootPage(pages, page, level);
    KidIsTree(SHAPE, Nodes(pages), page, level, i);
  }

  lemma KidFits(pages: map<nat, Image>, page: nat, level: nat, base: nat, i: nat)
    requires level > 0 && IsTree(pages, page, level) && i < FANOUT && page in pages && Fits(pages, page, level, base)
    ensures Fits(pages, ReadSlot(pages[page], i), level - 1, base + i * Cap(BITS_PER_LEAF, level - 1))
  {
    hide Tree, Cap, ReadSlot, IsTree, FreeBit;
    var span := Cap(BITS_PER_LEAF, level - 1);
    var child := ReadSlot(pages[page], i);
    var below := level - 1;
    forall k: nat | FreeBit(pages, child, below, k) ensures base + i * span + k <= U64_MAX {
      BelowCap(pages, page, level, i, k);
      KidBit(pages, page, level, i, i * span + k);
      assert FreeBit(pages, page, level, i * span + k);
    }
  }

  lemma BelowCap(pages: map<nat, Image>, page: nat, level: nat, i: nat, k: nat)
    requires level > 0 && IsTree(pages, page, level) && i < FANOUT && page in pages
    requires FreeBit(pages, ReadSlot(pages[page], i), level - 1, k)
    ensures k < Cap(BITS_PER_LEAF, level - 1)
  {
    hide Tree, Cap, Get, ReadSlot, Reach;
    KidSlot(pages, page, level, i);
    if k >= Cap(BITS_PER_LEAF, level - 1) {
      OutOfReach(SHAPE, Nodes(pages), ReadSlot(pages[page], i), level - 1, k);
    }
  }

  /** Nothing to find in the first `i` children, and nothing in the next. */
  lemma KidNothing(pages: map<nat, Image>, page: nat, level: nat, base: nat, lo: nat, i: nat)
    requires level > 0 && IsTree(pages, page, level) && i < FANOUT && page in pages
    requires Nothing(pages, page, level, base, lo, i * Cap(BITS_PER_LEAF, level - 1))
    requires var span := Cap(BITS_PER_LEAF, level - 1);
             var child := ReadSlot(pages[page], i);
             child == 0 || base + i * span + span <= lo || Nothing(pages, child, level - 1, base + i * span, lo, span)
    ensures Nothing(pages, page, level, base, lo, (i + 1) * Cap(BITS_PER_LEAF, level - 1))
  {
    hide Tree, Cap, ReadSlot, IsTree, FreeBit;
    var span := Cap(BITS_PER_LEAF, level - 1);
    var child := ReadSlot(pages[page], i);
    assert (i + 1) * span == i * span + span;
    forall k: nat | k < (i + 1) * span && FreeBit(pages, page, level, k) ensures base + k < lo {
      if k >= i * span {
        KidBit(pages, page, level, i, k);
        NoBits(pages, level - 1, k - i * span);
        assert FreeBit(pages, child, level - 1, k - i * span);
      }
    }
  }

  lemma NoBits(pages: map<nat, Image>, level: nat, k: nat)
    ensures !FreeBit(pages, 0, level, k)
  {
  }

  /** The first hit in the first child that has one is the lowest of all. */
  lemma KidFound(pages: map<nat, Image>, page: nat, level: nat, base: nat, lo: nat, i: nat, x: nat)
    requires level > 0 && IsTree(pages, page, level) && i < FANOUT && page in pages
    requires Nothing(pages, page, level, base, lo, i * Cap(BITS_PER_LEAF, level - 1))
    requires Lowest(pages, ReadSlot(pages[page], i), level - 1, base + i * Cap(BITS_PER_LEAF, level - 1), lo, x)
    ensures Lowest(pages, page, level, base, lo, x)
  {
    hide Tree, Cap, ReadSlot, IsTree, FreeBit;
    var span := Cap(BITS_PER_LEAF, level - 1);
    var child := ReadSlot(pages[page], i);
    BelowCap(pages, page, level, i, x - (base + i * span));
    KidBit(pages, page, level, i, x - base);
    forall k: nat | FreeBit(pages, page, level, k) && base + k >= lo ensures x <= base + k {
      if i * span <= k < i * span + span {
        KidBit(pages, page, level, i, k);
        assert FreeBit(pages, child, level - 1, k - i * span);
      }
    }
  }

  /** A well-formed tree holds nothing past its capacity. */
  lemma NothingAtAll(pages: map<nat, Image>, page: nat, level: nat, base: nat, lo: nat, k: nat)
    requires IsTree(pages, page, level) && Nothing(pages, page, level, base, lo, Cap(BITS_PER_LEAF, level))
    ensures FreeBit(pages, page, level, k) ==> base + k < lo
  {
    hide Tree, Cap, Get;
    if k >= Cap(BITS_PER_LEAF, level) {
      OutOfReach(SHAPE, Nodes(pages), page, level, k);
    }
  }

  /** Where the saturating base arithmetic puts child `i`. */
  lemma SaturatedBase(base: nat, i: nat, span: nat)
    ensures SatAdd(Min(base, U64_MAX), SatMul(i, span)) == Min(base + i * span, U64_MAX)
    ensures SatAdd(Min(base + i * span, U64_MAX), span) == Min(base + i * span + span, U64_MAX)
  {
  }

  /** What the bitmap scan finds in a leaf. */
  lemma LeafScanned(pages: map<nat, Image>, page: nat, base: nat, lo: nat, r: Option<nat>)
    requires IsTree(pages, page, 0) && page in pages && Fits(pages, page, 0, base)
    requires var sat := Min(base, U64_MAX);
             var local := if lo > sat then lo - sat else 0;
             && (r.Some? ==> local <= r.value < BITS_PER_LEAF && BitAt(Bitmap(pages[page]), r.value))
             && (r.Some? ==> forall k: nat | local <= k < r.value :: !BitAt(Bitmap(pages[page]), k))
             && (r.None? ==> forall k: nat | local <= k :: !BitAt(Bitmap(pages[page]), k))
    ensures Scanned(pages, page, 0, base, lo, if r.None? then None else Some(Min(base, U64_MAX) + r.value))
  {
    hide BitAt, Bitmap;
    forall k: nat ensures FreeBit(pages, page, 0, k) <==> k < BITS_PER_LEAF && BitAt(Bitmap(pages[page]), k) {
      LeafBit(pages, page, k);
    }
    hide FreeBit, IsTree;
    if r.Some? {
      assert FreeBit(pages, page, 0, r.value);
    }
  }

  lemma LeafBit(pages: map<nat, Image>, page: nat, k: nat)
    requires IsTree(pages, page, 0) && page in pages
    ensures FreeBit(pages, page, 0, k) <==> k < BITS_PER_LEAF && BitAt(Bitmap(pages[page]), k)
  {
    hide BitAt, Bitmap;
    RootPage(pages, page, 0);
  }

  lemma NothingYet(pages: map<nat, Image>, page: nat, level: nat, base: nat, lo: nat)
    ensures Nothing(pages, page, level, base, lo, 0)
  {
  }

  lemma NothingLeft(pages: map<nat, Image>, page: nat, level: nat, base: nat, lo: nat)
    requires level > 0 && Nothing(pages, page, level, base, lo, FANOUT * Cap(BITS_PER_LEAF, level - 1))
    ensures Scanned(pages, page, level, base, lo, None)
  {
    hide FreeBit, Nothing;
    assert Cap(BITS_PER_LEAF, level) == FANOUT * Cap(BITS_PER_LEAF, level - 1);
  }

  lemma SubNothing(pages: map<nat, Image>, page: nat, level: nat, base: nat, lo: nat)
    requires Scanned(pages, page, level, base, lo, None)
    ensures Nothing(pages, page, level, base, lo, Cap(BITS_PER_LEAF, level))
  {
  }

  lemma SubFound(pages: map<nat, Image>, page: nat, level: nat, base: nat, lo: nat, i: nat, r: Option<nat>)
    requires level > 0 && IsTree(pages, page, level) && i < FANOUT && page in pages && r.Some?
    requires Nothing(pages, page, level, base, lo, i * Cap(BITS_PER_LEAF, level - 1))
    requires Scanned(pages, ReadSlot(pages[page], i), level - 1, base + i * Cap(BITS_PER_LEAF, level - 1), lo, r)
    ensures Scanned(pages, page, level, base, lo, r)
  {
    hide Tree, Cap, ReadSlot, IsTree, FreeBit, Nothing, Lowest;
    KidFound(pages, page, level, base, lo, i, r.value);
  }

  // ----- the pages of a tree, child by child -----

  /** The pages beneath the first `n` children. */
  ghost function UpTo(pages: map<nat, Image>, page: nat, level: nat, n: nat): set<nat>
    requires page in pages && level > 0 && n <= FANOUT
  {
    set i, q | 0 <= i < n && q in KidPages(pages, page, level, i) :: q
  }

  ghost function KidPages(pages: map<nat, Image>, page: nat, level: nat, i: nat): set<nat>
    requires page in pages && level > 0 && i < FANOUT
  {
    Reach(Nodes(pages), ReadSlot(pages[page], i), level - 1)
  }

  lemma UpToNext(pages: map<nat, Image>, page: nat, level: nat, i: nat)
    requires page in pages && level > 0 && i < FANOUT
    ensures UpTo(pages, page, level, 0) == {}
    ensures UpTo(pages, page, level, i + 1) == UpTo(pages, page, level, i) + KidPages(pages, page, level, i)
  {
    hide KidPages;
  }

  lemma UpToAll(pages: map<nat, Image>, page: nat, level: nat)
    requires page in pages && level > 0 && 0 < page && pages[page][0] == TYPE_FREEMAP_INTERIOR
    ensures Reach(Nodes(pages), page, level) == {page} + UpTo(pages, page, level, FANOUT)
  {
    var h := Nodes(pages);
    assert h[page] == Interior(Slots(pages[page]));
    forall i: nat | i < FANOUT ensures KidReach(h, page, level, i) == KidPages(pages, page, level, i) {
    }
    hide KidReach, KidPages, Nodes;
  }

  lemma LeafReach(pages: map<nat, Image>, page: nat)
    requires 0 < page
    ensures Reach(Nodes(pages), page, 0) == {page}
  {
  }
}
