/**
 The one id a freemap scan cannot find. Child ranges are computed with saturating arithmetic, so
 the last child's end is 2^64 - 1 and a scan from 2^64 - 1 skips it. Below, a tree in which that
 id alone is free, and what the operations make of it. `AllocateFirst` states exactly when the
 answer is wrong.
 */
module FreeMapLastId {
  import opened Pages
  import opened RadixTree
  import opened FreeMap
  import opened FreeMapPages
  import opened FreeMapSession
  import Freemap = FreeMapTree

  /** A tree of one path, on pages `id`, `id + 1`, …, whose leaf has the bit of `key` set. */
  function PathPages(hash: Hash, id: nat, level: nat, key: nat): map<nat, Image>
    requires id + level < PAGE_ID_NONE && key < Cap(BITS_PER_LEAF, level)
    decreases level
  {
    if level == 0 then map[id := Stamp(hash, Marked(NewPage(TYPE_FREEMAP), key))]
    else
      var span := Cap(BITS_PER_LEAF, level - 1);
      DigitBound(key, span, FANOUT);
      DigitCompose(key, span);
      PathPages(hash, id + 1, level - 1, Rem(key, span))
        [id := Stamp(hash, WriteSlot(NewPage(TYPE_FREEMAP_INTERIOR), Digit(key, span), id + 1))]
  }

  ghost predicate OnlyKey(h: Heap<bool>, p: nat, level: nat, key: nat) {
    forall k: nat :: Get(SHAPE, h, p, level, k) <==> k == key
  }

  /** The pages form a well-formed, stamped tree in which exactly `key` is free. */
  lemma {:induction false} PathTree(hash: Hash, id: nat, level: nat, key: nat)
    requires 0 < id && id + level < PAGE_ID_NONE && key < Cap(BITS_PER_LEAF, level)
    ensures var pages := PathPages(hash, id, level, key);
            && Tree(SHAPE, Nodes(pages), id, level) && OnlyKey(Nodes(pages), id, level, key)
            && AllStamped(hash, pages, Reach(Nodes(pages), id, level))
            && Reach(Nodes(pages), id, level) <= pages.Keys && (forall q | q in pages :: id <= q)
    decreases level
  {
    hide Stamp, Stamped, WriteSlot, NewPage, Marked;
    if level == 0 {
      PathLeaf(hash, id, key);
    } else {
      var span := Cap(BITS_PER_LEAF, level - 1);
      DigitBound(key, span, FANOUT);
      DigitCompose(key, span);
      PathTree(hash, id + 1, level - 1, Rem(key, span));
      PathUp(hash, id, level, key, PathPages(hash, id + 1, level - 1, Rem(key, span)));
    }
  }

  lemma PathLeaf(hash: Hash, id: nat, key: nat)
    requires 0 < id && key < BITS_PER_LEAF
    ensures var pages := map[id := Stamp(hash, Marked(NewPage(TYPE_FREEMAP), key))];
            && Tree(SHAPE, Nodes(pages), id, 0) && OnlyKey(Nodes(pages), id, 0, key)
            && AllStamped(hash, pages, Reach(Nodes(pages), id, 0)) && Reach(Nodes(pages), id, 0) <= pages.Keys
  {
    hide Stamp, Stamped, NewPage, LeafBits;
    var buf := NewPage(TYPE_FREEMAP);
    var empty := map[id := Stamp(hash, buf)];
    NewPageNode(hash, empty, id, 0);
    StampKeepsNode(hash, buf);
    assert Nodes(empty)[id] == NodeOf(buf);
    EditNode(hash, buf, key, true);
  }

  lemma PathUp(hash: Hash, id: nat, level: nat, key: nat, sub: map<nat, Image>)
    requires 0 < level && 0 < id && id + 1 < PAGE_ID_NONE && key < Cap(BITS_PER_LEAF, level)
    requires Digit(key, Cap(BITS_PER_LEAF, level - 1)) < FANOUT
    requires Tree(SHAPE, Nodes(sub), id + 1, level - 1)
    requires OnlyKey(Nodes(sub), id + 1, level - 1, Rem(key, Cap(BITS_PER_LEAF, level - 1)))
    requires AllStamped(hash, sub, Reach(Nodes(sub), id + 1, level - 1))
    requires Reach(Nodes(sub), id + 1, level - 1) <= sub.Keys && forall q | q in sub :: id + 1 <= q
    ensures var pages := sub[id := Stamp(hash, WriteSlot(NewPage(TYPE_FREEMAP_INTERIOR), Digit(key, Cap(BITS_PER_LEAF, level - 1)), id + 1))];
            && Tree(SHAPE, Nodes(pages), id, level) && OnlyKey(Nodes(pages), id, level, key)
            && AllStamped(hash, pages, Reach(Nodes(pages), id, level)) && Reach(Nodes(pages), id, level) <= pages.Keys
  {
    hide Tree, Reach, Get, Digit, Rem, Cap, Stamp, Stamped, WriteSlot, NewPage, NodeOf, EmptyNode;
    var i := Digit(key, Cap(BITS_PER_LEAF, level - 1));
    var empty := Stamp(hash, NewPage(TYPE_FREEMAP_INTERIOR));
    var buf := Stamp(hash, WriteSlot(NewPage(TYPE_FREEMAP_INTERIOR), i, id + 1));
    var h, h0, h1 := Nodes(sub), Nodes(sub[id := empty]), Nodes(sub[id := buf]);
    StampKeepsNode(hash, NewPage(TYPE_FREEMAP_INTERIOR));
    EmptyInterior();
    WriteSlotNode(hash, NewPage(TYPE_FREEMAP_INTERIOR), i, id + 1);
    NewPageNode(hash, sub[id := empty], id, level);
    EmptyNodeIsTree(SHAPE, h0, id, level);
    FrameAll(SHAPE, h, h1, id + 1, level - 1);
    assert h1[id] == Interior(h0[id].children[i := id + 1]);
    PathLinks(h0, h1, id, level, i);
    forall k: nat ensures Get(SHAPE, h1, id, level, k) <==> k == key {
      RelinkGet(SHAPE, h0, id, level, h1, id, i, id + 1, k);
      DigitsUnique(k, key, Cap(BITS_PER_LEAF, level - 1));
      assert Get(SHAPE, h1, id + 1, level - 1, Rem(k, Cap(BITS_PER_LEAF, level - 1)))
          == Get(SHAPE, h, id + 1, level - 1, Rem(k, Cap(BITS_PER_LEAF, level - 1)));
    }
  }

  lemma PathLinks(h0: Heap<bool>, h1: Heap<bool>, id: nat, level: nat, i: nat)
    requires level > 0 && id > 0 && i < FANOUT && Tree(SHAPE, h0, id, level) && Reach(h0, id, level) == {id}
    requires id in h1 && h1[id] == Interior(h0[id].children[i := id + 1])
    requires Tree(SHAPE, h1, id + 1, level - 1) && id !in Reach(h1, id + 1, level - 1)
    ensures Tree(SHAPE, h1, id, level) && Reach(h1, id, level) == {id} + Reach(h1, id + 1, level - 1)
    ensures KidReach(h0, id, level, i) == {}
  {
    assert KidReach(h0, id, level, i) <= Reach(h0, id, level);
    Relink(SHAPE, h0, id, level, h1, id, i, id + 1);
  }

  /** With 2^64 - 1 free and nothing else, the tree says it is free and the scan from it finds nothing. */
  method MissedLastId(hash: Hash) returns (isFree: Result<bool>, fromLast: Result<Option<nat>>, fromBelow: Result<Option<nat>>)
    ensures isFree == Ok(true)
    ensures fromLast == Ok(None)
    ensures fromBelow == Ok(Some(U64_MAX))
  {
    hide Tree, Reach, Get, Nodes, Cap, AllStamped, PathPages;
    DepthBound();
    PathTree(hash, 1, MAX_DEPTH, U64_MAX);
    var store := new PageStore(PathPages(hash, 1, MAX_DEPTH, U64_MAX), {}, hash);
    var tree := new Freemap.FreeMapTree.FromRoots(store, 1, MAX_DEPTH);
    assert tree.Valid(store);
    assert U64_MAX in tree.Free(store);
    isFree := tree.IsFree(store, U64_MAX);
    fromLast := tree.ScanFrom(store, U64_MAX);
    fromBelow := tree.ScanFrom(store, U64_MAX - 1);
  }
}
