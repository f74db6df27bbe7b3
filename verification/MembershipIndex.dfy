/**
 The two-level membership index: tag -> set of handles. Each operation runs one mutation of
 the tag's inner tree and one of the outer tree, and keeps the inner tree's depth in the
 outer tree's value.
 */
module MembershipIndex {
  import opened Pages
  import opened RadixTree
  import opened RadixItems
  import opened MembershipPages
  import opened MembershipModel
  import Radix = RadixU64

  /** The index at a root that may not have been created yet. */
  ghost function IndexOf(pages: map<nat, Image>, root: nat, depth: nat): map<nat, set<nat>> {
    if root == PAGE_ID_NONE then map[] else Index(Nodes(pages), root, depth)
  }

  ghost function OccupiesOf(pages: map<nat, Image>, root: nat, depth: nat): set<nat> {
    if root == PAGE_ID_NONE then {} else Occupies(Nodes(pages), root, depth)
  }

  ghost predicate ValidAt(pages: map<nat, Image>, root: nat, depth: nat) {
    root == PAGE_ID_NONE || Valid(Nodes(pages), root, depth)
  }

  /** A valid index that the allocator stays clear of. */
  ghost predicate Ready(pages: map<nat, Image>, supply: set<nat>, root: nat, depth: nat) {
    ValidAt(pages, root, depth) && supply !! OccupiesOf(pages, root, depth)
  }

  ghost predicate SmallIds(supply: set<nat>) {
    forall id | id in supply :: 0 < id < INNER_ROOT_LIMIT
  }

  ghost function MembersOf(m: map<nat, set<nat>>, tag: nat): set<nat> {
    if tag in m then m[tag] else {}
  }

  /** The index with one pair taken out; a tag left without handles disappears. */
  ghost function WithoutPair(m: map<nat, set<nat>>, tag: nat, handle: nat): map<nat, set<nat>> {
    if MembersOf(m, tag) - {handle} == {} then m - {tag} else m[tag := MembersOf(m, tag) - {handle}]
  }

  lemma IndexPersists(p0: map<nat, Image>, p1: map<nat, Image>, s0: set<nat>, s1: set<nat>, root: nat, depth: nat)
    requires Ready(p0, s0, root, depth) && s1 <= s0 && Wrote(p0, p1, s0 - s1)
    ensures Ready(p1, s1, root, depth) && IndexOf(p1, root, depth) == IndexOf(p0, root, depth)
    ensures OccupiesOf(p1, root, depth) == OccupiesOf(p0, root, depth)
  {
    hide Valid, Occupies, Index, Nodes, Wrote;
    if root != PAGE_ID_NONE {
      NodesWrote(p0, p1, s0 - s1);
      IndexFrame(Nodes(p0), Nodes(p1), s0 - s1, root, depth);
    }
  }

  lemma ReadyOuter(pages: map<nat, Image>, supply: set<nat>, root: nat, depth: nat)
    requires Ready(pages, supply, root, depth) && root != PAGE_ID_NONE
    ensures Radix.Ready(pages, supply, root, depth) && Radix.IsTree(pages, root, depth)
  {
    hide Tree, Reach, Nodes, InnersOk, Inners, Spine;
  }

  /** The tag's inner tree, when it has one, is ready too. */
  lemma ReadyInner(pages: map<nat, Image>, supply: set<nat>, root: nat, depth: nat, tag: u64)
    requires Ready(pages, supply, root, depth) && root != PAGE_ID_NONE
    ensures var p := Packed(Nodes(pages), root, depth, tag);
            && p <= U64_MAX && InnerDepth(p) <= MAX_DEPTH && (InnerRoot(p) == 0 <==> p == 0)
            && (p != 0 ==> Radix.Ready(pages, supply, InnerRoot(p), InnerDepth(p)) && Radix.IsTree(pages, InnerRoot(p), InnerDepth(p)))
            && (p != 0 ==> Radix.InRange(pages, InnerRoot(p), InnerDepth(p), 0))
            && Handles(Nodes(pages), p) == MembersOf(Index(Nodes(pages), root, depth), tag)
  {
    hide Tree, Reach, Nodes, Inners, Spine, Get, Occupies;
    var h := Nodes(pages);
    var p := Packed(h, root, depth, tag);
    InnerInOccupies(h, root, depth, tag);
    if p != 0 {
      assert InnerOk(h, p, Reach(h, root, depth));
      forall k: nat | Radix.Present(Get(SHAPE, h, InnerRoot(p), InnerDepth(p), k)) ensures 0 + k <= U64_MAX {
      }
    } else {
      NoHandles(h);
    }
  }

  lemma NoHandles(h: Heap<nat>)
    ensures Handles(h, 0) == {}
  {
    assert InnerRoot(0) == 0;
  }

  class MembershipIndex {
    var outerDepth: nat

    constructor ()
      ensures outerDepth == 0
    {
      outerDepth := 0;
    }

    /**
     Add (tag, handle). On any pages: only drawn pages are written, only membership pages are
     offered for reuse, and a failure leaves the depth alone. On a valid index: exactly that
     pair is added, every page is accounted for, and the old root keeps its meaning.
     */
    method Insert(store: PageStore, outerRoot: u64, tag: u32, handle: u64) returns (r: Result<nat>, freed: seq<nat>)
      requires outerDepth <= MAX_DEPTH && SmallIds(store.supply)
      modifies this, store
      ensures store.asked <= old(store.asked) + 6 * MAX_DEPTH + 4
      ensures store.refusals == old(store.refusals) + if r == Err(AllocFailed) then 1 else 0
      ensures store.supply <= old(store.supply)
      ensures Wrote(old(store.pages), store.pages, old(store.supply) - store.supply)
      ensures Radix.FreedTyped(old(store.pages), old(store.supply) - store.supply, freed)
      ensures r.Err? ==> outerDepth == old(outerDepth)
      ensures old(Ready(store.pages, store.supply, outerRoot, outerDepth)) ==>
                && ValidAt(store.pages, outerRoot, old(outerDepth))
                && IndexOf(store.pages, outerRoot, old(outerDepth)) == old(IndexOf(store.pages, outerRoot, outerDepth))
      ensures old(Ready(store.pages, store.supply, outerRoot, outerDepth)) && r.Err? ==> r.error == AllocFailed
      ensures old(Ready(store.pages, store.supply, outerRoot, outerDepth)) && r.Ok? ==>
                && r.value != PAGE_ID_NONE && ValidAt(store.pages, r.value, outerDepth)
                && IndexOf(store.pages, r.value, outerDepth)
                   == old(IndexOf(store.pages, outerRoot, outerDepth))
                      [tag := MembersOf(old(IndexOf(store.pages, outerRoot, outerDepth)), tag) + {handle}]
                && Conserved(old(OccupiesOf(store.pages, outerRoot, outerDepth)), old(store.supply) - store.supply,
                             OccupiesOf(store.pages, r.value, outerDepth), freed)
    {
      hide Valid, Occupies, Index, Nodes, Wrote, Tree, Reach, Get, Built, PutAt, Handles, Conserved, AllStamped, BuiltFrom,
        Radix.FreedTyped;
      ghost var p0, s0 := store.pages, store.supply;
      ghost var ok := Ready(p0, s0, outerRoot, outerDepth);
      Radix.FreedNone(p0, {});
      var c, outer := OpenOuter(store, outerRoot);
      ghost var p1, s1, d1 := store.pages, store.supply, outer.depth;
      if ok {
        IndexPersists(p0, p1, s0, s1, outerRoot, outerDepth);
      }
      if c.Err? {
        assert s0 - s1 == {};
        return c, [];
      }
      var root := c.value;
      ghost var ni, di;
      var packed, f1;
      packed, f1, ni, di := InsertInner(store, outer, root, tag, handle);
      ghost var p3, s3 := store.pages, store.supply;
      WroteTrans(p0, p1, p3, s0 - s1, s1 - s3, s0 - s3);
      TypedAcross(p0, p1, s0 - s1, s1 - s3, s0 - s3, f1);
      if ok {
        IndexPersists(p0, p3, s0, s3, outerRoot, outerDepth);
      }
      if packed.Err? {
        return Err(packed.error), f1;
      }
      if ok {
        IndexPersists(p1, p3, s1, s3, root, d1);
        ReadyOuter(p3, s3, root, d1);
      }
      var no, f2 := outer.Insert(store, root, tag, packed.value);
      ghost var p4, s4 := store.pages, store.supply;
      WroteTrans(p0, p3, p4, s0 - s3, s3 - s4, s0 - s4);
      TypedBoth(p0, p3, s0 - s3, s3 - s4, s0 - s4, f1, f2);
      if ok {
        IndexPersists(p0, p4, s0, s4, outerRoot, outerDepth);
      }
      if no.Err? {
        return no, f1 + f2;
      }
      if ok {
        ReadyInner(p1, s1, root, d1, tag);
        SetFinished(store.hash, p1, s1, root, d1, tag, handle, 1, p3, s3, ni, di, f1, p4, s4, no.value, outer.depth, f2);
        FinishConserved(p0, s0, outerRoot, outerDepth, p1, s1, root, d1, p4, s4, no.value, outer.depth, f1 + f2);
      }
      outerDepth := outer.depth;
      return no, f1 + f2;
    }

    /** The outer tree, created empty if there is none. */
    method OpenOuter(store: PageStore, outerRoot: u64) returns (r: Result<nat>, outer: Radix.RadixU64)
      requires outerDepth <= MAX_DEPTH && SmallIds(store.supply)
      modifies store
      ensures store.asked <= old(store.asked) + 1
      ensures store.refusals == old(store.refusals) + if r.Err? then 1 else 0
      ensures fresh(outer) && outer.depth <= MAX_DEPTH && store.supply <= old(store.supply)
      ensures Wrote(old(store.pages), store.pages, old(store.supply) - store.supply)
      ensures r.Err? ==> r.error == AllocFailed && store.pages == old(store.pages) && store.supply == old(store.supply)
      ensures r.Ok? ==> r.value < PAGE_ID_NONE
      ensures r.Ok? && old(Ready(store.pages, store.supply, outerRoot, outerDepth)) ==>
                && Ready(store.pages, store.supply, r.value, outer.depth)
                && IndexOf(store.pages, r.value, outer.depth) == old(IndexOf(store.pages, outerRoot, outerDepth))
                && old(OccupiesOf(store.pages, outerRoot, outerDepth)) + (old(store.supply) - store.supply)
                   == OccupiesOf(store.pages, r.value, outer.depth)
    {
      hide Valid, Occupies, Index, Nodes, Wrote, Stamp, NewPage;
      ghost var p0, s0 := store.pages, store.supply;
      assert s0 - s0 == {};
      WroteNone(p0, {});
      outer := new Radix.RadixU64(outerDepth);
      r := Ok(outerRoot);
      if outerRoot == PAGE_ID_NONE {
        r := outer.CreateRoot(store);
        if r.Err? {
          return;
        }
        assert s0 - store.supply == {r.value};
        WroteNone(p0, {r.value});
        WroteMore(p0, p0, {r.value}, r.value, store.pages[r.value]);
      }
      if Ready(p0, s0, outerRoot, outerDepth) {
        RootReady(store.hash, p0, s0, outerRoot, outerDepth, store.pages, store.supply, r.value, outer.depth);
      }
    }

    /** Put `handle` into the inner tree of `tag`, created if there is none; the result is what the outer tree is to hold. */
    method InsertInner(store: PageStore, outer: Radix.RadixU64, root: nat, tag: u32, handle: u64)
      returns (r: Result<u64>, freed: seq<nat>, ghost ni: nat, ghost di: nat)
      requires outer.depth <= MAX_DEPTH && SmallIds(store.supply) && root != PAGE_ID_NONE
      modifies store
      ensures store.asked <= old(store.asked) + 3 * MAX_DEPTH + 2
      ensures store.refusals == old(store.refusals) + if r == Err(AllocFailed) then 1 else 0
      ensures store.supply <= old(store.supply)
      ensures Wrote(old(store.pages), store.pages, old(store.supply) - store.supply)
      ensures Radix.FreedTyped(old(store.pages), old(store.supply) - store.supply, freed)
      ensures r.Ok? ==> ni in old(store.supply) && di <= MAX_DEPTH && r.value == PackInner(ni, di) && r.value != 0
      ensures old(Ready(store.pages, store.supply, root, outer.depth)) && r.Err? ==> r.error == AllocFailed
      ensures old(Ready(store.pages, store.supply, root, outer.depth)) && r.Ok? ==>
                var h1, h3 := Nodes(old(store.pages)), Nodes(store.pages);
                var p := Packed(h1, root, outer.depth, tag);
                && BuiltFrom(h1, p, h3, ni, di, old(store.supply) - store.supply, freed)
                && PutAt(SHAPE, h1, InnerRoot(p), InnerDepth(p), h3, ni, di, handle, 1)
    {
      hide Valid, Occupies, Index, Nodes, Wrote, Tree, Reach, Get, Built, PutAt, Handles, Stamp, NewPage, EmptyNode, AllStamped, BuiltFrom,
        Radix.FreedTyped;
      ghost var p1, s1, d1 := store.pages, store.supply, outer.depth;
      ghost var ok := Ready(p1, s1, root, d1);
      ni, di := 0, 0;
      assert s1 - s1 == {};
      WroteNone(p1, {});
      Radix.FreedNone(p1, {});
      if ok {
        ReadyOuter(p1, s1, root, d1);
        ReadyInner(p1, s1, root, d1, tag);
      }
      var look := outer.Lookup(store, root, tag);
      if look.Err? {
        return Err(look.error), [], ni, di;
      }
      var (innerRoot, innerDepth) := UnpackInner(look.value);
      if innerRoot != 0 && innerDepth > MAX_DEPTH {
        return Err(CorruptPage(innerRoot)), [], ni, di;
      }
      var inner := new Radix.RadixU64(innerDepth);
      if innerRoot == 0 {
        var c := inner.CreateRoot(store);
        if c.Err? {
          return Err(c.error), [], ni, di;
        }
        innerRoot := c.value;
        assert s1 - store.supply == {innerRoot};
        WroteNone(p1, {innerRoot});
        WroteMore(p1, p1, {innerRoot}, innerRoot, store.pages[innerRoot]);
        NewPageNode(store.hash, store.pages, innerRoot, 0);
      }
      ghost var p2, s2, d2 := store.pages, store.supply, inner.depth;
      if ok {
        InnerPrepared(p1, s1, root, d1, tag, p2, s2, innerRoot, d2);
      }
      var n;
      n, freed := inner.Insert(store, innerRoot, handle, 1);
      ghost var p3, s3 := store.pages, store.supply;
      WroteTrans(p1, p2, p3, s1 - s2, s2 - s3, s1 - s3);
      TypedAcross(p1, p2, s1 - s2, s2 - s3, s1 - s3, freed);
      if n.Err? {
        return Err(n.error), freed, ni, di;
      }
      ni, di := n.value, inner.depth;
      PackRoundTrip(n.value, inner.depth);
      if ok {
        InnerRebuilt(store.hash, p1, s1, root, d1, tag, p2, s2, innerRoot, d2, handle, 1, p3, s3, ni, di, freed);
      }
      return Ok(PackInner(n.value, inner.depth)), freed, ni, di;
    }

    /**
     Remove (tag, handle). A pair that is not there costs nothing. Removing a tag's last handle
     frees the whole inner tree and drops the tag. Failures and old roots as for Insert.
     */
    method Remove(store: PageStore, outerRoot: u64, tag: u32, handle: u64) returns (r: Result<(nat, bool)>, freed: seq<nat>)
      requires outerDepth <= MAX_DEPTH && SmallIds(store.supply)
      modifies this, store
      ensures store.asked <= old(store.asked) + 4 * MAX_DEPTH + 2
      ensures store.refusals == old(store.refusals) + if r == Err(AllocFailed) then 1 else 0
      ensures store.supply <= old(store.supply)
      ensures Wrote(old(store.pages), store.pages, old(store.supply) - store.supply)
      ensures Radix.FreedTyped(old(store.pages), old(store.supply) - store.supply, freed)
      ensures r.Err? ==> outerDepth == old(outerDepth)
      ensures old(Ready(store.pages, store.supply, outerRoot, outerDepth)) ==>
                && ValidAt(store.pages, outerRoot, old(outerDepth))
                && IndexOf(store.pages, outerRoot, old(outerDepth)) == old(IndexOf(store.pages, outerRoot, outerDepth))
      ensures old(Ready(store.pages, store.supply, outerRoot, outerDepth)) && r.Err? ==> r.error == AllocFailed
      ensures old(Ready(store.pages, store.supply, outerRoot, outerDepth)) && r.Ok? ==>
                r.value.1 == (handle in MembersOf(old(IndexOf(store.pages, outerRoot, outerDepth)), tag))
      ensures r.Ok? && !r.value.1 ==>
                && r.value.0 == outerRoot && freed == [] && outerDepth == old(outerDepth)
                && store.pages == old(store.pages) && store.supply == old(store.supply)
      ensures old(Ready(store.pages, store.supply, outerRoot, outerDepth)) && r.Ok? && r.value.1 ==>
                && r.value.0 != PAGE_ID_NONE && ValidAt(store.pages, r.value.0, outerDepth)
                && IndexOf(store.pages, r.value.0, outerDepth)
                   == WithoutPair(old(IndexOf(store.pages, outerRoot, outerDepth)), tag, handle)
                && Conserved(old(OccupiesOf(store.pages, outerRoot, outerDepth)), old(store.supply) - store.supply,
                             OccupiesOf(store.pages, r.value.0, outerDepth), freed)
    {
      hide Valid, Occupies, Index, Nodes, Wrote, Tree, Reach, Get, Built, PutAt, Handles, Conserved, AllStamped, Elems, Distinct, Radix.FreedTyped;
      ghost var p1, s1, d1 := store.pages, store.supply, outerDepth;
      ghost var ok := Ready(p1, s1, outerRoot, outerDepth);
      assert s1 - s1 == {};
      WroteNone(p1, {});
      Radix.FreedNone(p1, {});
      if outerRoot == PAGE_ID_NONE {
        return Ok((outerRoot, false)), [];
      }
      var outer := new Radix.RadixU64(outerDepth);
      if ok {
        ReadyOuter(p1, s1, outerRoot, d1);
        ReadyInner(p1, s1, outerRoot, d1, tag);
      }
      var look := outer.Lookup(store, outerRoot, tag);
      if look.Err? {
        return Err(look.error), [];
      }
      var (innerRoot, innerDepth) := UnpackInner(look.value);
      if innerRoot != 0 && innerDepth > MAX_DEPTH {
        return Err(CorruptPage(innerRoot)), [];
      }
      if innerRoot == 0 {
        NoHandles(Nodes(p1));
        return Ok((outerRoot, false)), [];
      }
      var inner := new Radix.RadixU64(innerDepth);
      var del, f1 := inner.Delete(store, innerRoot, handle);
      ghost var p3, s3 := store.pages, store.supply;
      if ok {
        IndexPersists(p1, p3, s1, s3, outerRoot, d1);
        HandlesHas(Nodes(p1), look.value, handle);
      }
      if del.Err? {
        return Err(del.error), f1;
      }
      var (ni, prev) := del.value;
      if prev == 0 {
        return Ok((outerRoot, false)), [];
      }
      if ok {
        InnerDeleted(store.hash, p1, s1, outerRoot, d1, tag, handle, p3, s3, ni, innerDepth, f1);
        ReadyOuter(p3, s3, outerRoot, d1);
        ReadyInner(p3, s3, outerRoot, d1, tag);
        SamePacked(p1, p3, s1, s3, outerRoot, d1, tag);
      }
      var any := inner.AnyPresent(store, ni);
      if any.Err? {
        return Err(any.error), f1;
      }
      if any.value {
        PackRoundTrip(ni, innerDepth);
        var no, f2 := outer.Insert(store, outerRoot, tag, PackInner(ni, innerDepth));
        ghost var p4, s4 := store.pages, store.supply;
        WroteTrans(p1, p3, p4, s1 - s3, s3 - s4, s1 - s4);
        TypedBoth(p1, p3, s1 - s3, s3 - s4, s1 - s4, f1, f2);
        if ok {
          IndexPersists(p1, p4, s1, s4, outerRoot, d1);
        }
        if no.Err? {
          return Err(no.error), f1 + f2;
        }
        if ok {
          SetFinished(store.hash, p1, s1, outerRoot, d1, tag, handle, 0, p3, s3, ni, innerDepth, f1, p4, s4, no.value, outer.depth, f2);
        }
        outerDepth := outer.depth;
        return Ok((no.value, true)), f1 + f2;
      }
      var fs, g := Radix.FreeSubtree(store, ni, innerDepth);
      TypedSubtree(p1, p3, s1 - s3, f1, g);
      if fs.Err? {
        return Err(fs.error), f1 + g;
      }
      var od, f2 := outer.Delete(store, outerRoot, tag);
      ghost var p4, s4 := store.pages, store.supply;
      WroteTrans(p1, p3, p4, s1 - s3, s3 - s4, s1 - s4);
      TypedBoth(p1, p3, s1 - s3, s3 - s4, s1 - s4, f1 + g, f2);
      if ok {
        IndexPersists(p1, p4, s1, s4, outerRoot, d1);
      }
      if od.Err? {
        return Err(od.error), f1 + g + f2;
      }
      if ok {
        DropFinished(store.hash, p1, s1, outerRoot, d1, tag, handle, p3, s3, ni, innerDepth, f1, g, p4, s4, od.value.0, d1, f2);
      }
      outerDepth := outer.depth;
      return Ok((od.value.0, true)), f1 + g + f2;
    }

    /** Membership of one pair. */
    method Contains(store: PageStore, outerRoot: u64, tag: u32, handle: u64) returns (r: Result<bool>)
      requires outerDepth <= MAX_DEPTH
      ensures ValidAt(store.pages, outerRoot, outerDepth) ==>
                r == Ok(handle in MembersOf(IndexOf(store.pages, outerRoot, outerDepth), tag))
    {
      hide Valid, Index, Nodes, Tree, Reach, Get, Handles;
      ghost var ok := ValidAt(store.pages, outerRoot, outerDepth);
      if outerRoot == PAGE_ID_NONE {
        return Ok(false);
      }
      var outer := new Radix.RadixU64(outerDepth);
      if ok {
        ReadyOuter(store.pages, {}, outerRoot, outerDepth);
        ReadyInner(store.pages, {}, outerRoot, outerDepth, tag);
      }
      var look := outer.Lookup(store, outerRoot, tag);
      if look.Err? {
        return Err(look.error);
      }
      var (innerRoot, innerDepth) := UnpackInner(look.value);
      if innerRoot != 0 && innerDepth > MAX_DEPTH {
        return Err(CorruptPage(innerRoot));
      }
      if innerRoot == 0 {
        NoHandles(Nodes(store.pages));
        return Ok(false);
      }
      var inner := new Radix.RadixU64(innerDepth);
      var v := inner.Lookup(store, innerRoot, handle);
      if v.Err? {
        return Err(v.error);
      }
      if ok {
        HandlesHas(Nodes(store.pages), look.value, handle);
      }
      return Ok(v.value != 0);
    }

    /** All handles of a tag, each once, ascending. */
    method HandlesForTag(store: PageStore, outerRoot: u64, tag: u32) returns (r: Result<seq<nat>>)
      requires outerDepth <= MAX_DEPTH
      ensures ValidAt(store.pages, outerRoot, outerDepth) ==>
                && r.Ok? && (forall i, j | 0 <= i < j < |r.value| :: r.value[i] < r.value[j])
                && Elems(r.value) == MembersOf(IndexOf(store.pages, outerRoot, outerDepth), tag)
    {
      hide Valid, Index, Nodes, Tree, Reach, Get, Handles;
      ghost var ok := ValidAt(store.pages, outerRoot, outerDepth);
      if outerRoot == PAGE_ID_NONE {
        return Ok([]);
      }
      var outer := new Radix.RadixU64(outerDepth);
      if ok {
        ReadyOuter(store.pages, {}, outerRoot, outerDepth);
        ReadyInner(store.pages, {}, outerRoot, outerDepth, tag);
      }
      var look := outer.Lookup(store, outerRoot, tag);
      if look.Err? {
        return Err(look.error);
      }
      var (innerRoot, innerDepth) := UnpackInner(look.value);
      if innerRoot != 0 && innerDepth > MAX_DEPTH {
        return Err(CorruptPage(innerRoot));
      }
      if innerRoot == 0 {
        NoHandles(Nodes(store.pages));
        return Ok([]);
      }
      var inner := new Radix.RadixU64(innerDepth);
      var items := inner.Iter(store, innerRoot);
      if items.Err? {
        return Err(items.error);
      }
      var out := seq(|items.value|, i requires 0 <= i < |items.value| => items.value[i].0);
      if ok {
        ItemsAreHandles(store.pages, look.value);
        forall k: nat ensures k in Elems(out) <==> k in Handles(Nodes(store.pages), look.value) {
          if k in Elems(out) {
            ghost var i :| 0 <= i < |out| && out[i] == k;
            assert items.value[i].0 == k;
          }
          if k in Handles(Nodes(store.pages), look.value) {
            ghost var i :| 0 <= i < |items.value| && items.value[i].0 == k;
            assert out[i] == k;
          }
        }
      }
      return Ok(out);
    }
  }

  lemma HandlesHas(h: Heap<nat>, packed: nat, handle: u64)
    ensures handle in Handles(h, packed) <==> Get(SHAPE, h, InnerRoot(packed), InnerDepth(packed), handle) != 0
  {
  }

  /** The inner enumeration is the tag's handle set. */
  lemma ItemsAreHandles(pages: map<nat, Image>, packed: nat)
    requires Radix.IsTree(pages, InnerRoot(packed), InnerDepth(packed))
    requires Radix.InRange(pages, InnerRoot(packed), InnerDepth(packed), 0)
    ensures var xs := Radix.ItemsOf(pages, InnerRoot(packed), InnerDepth(packed), 0);
            && Ascending(xs)
            && (forall k: nat :: k in Handles(Nodes(pages), packed) <==> exists i :: 0 <= i < |xs| && xs[i].0 == k)
  {
    hide Tree, Reach, Get, Nodes, Items;
    var p, d := InnerRoot(packed), InnerDepth(packed);
    var xs := Radix.ItemsOf(pages, p, d, 0);
    ItemsList(SHAPE, Nodes(pages), p, d, 0, Radix.Present);
    forall k: nat ensures k in Handles(Nodes(pages), packed) <==> exists i :: 0 <= i < |xs| && xs[i].0 == k {
      if k in Handles(Nodes(pages), packed) {
        if k >= Cap(SLOTS_PER_PAGE, d) {
          OutOfReach(SHAPE, Nodes(pages), p, d, k);
        }
        var x := (0 + k, Get(SHAPE, Nodes(pages), p, d, k));
        assert x in xs;
        var i :| 0 <= i < |xs| && xs[i] == x;
        assert xs[i].0 == k;
      }
      if i :| 0 <= i < |xs| && xs[i].0 == k {
        assert xs[i] in xs;
        assert Radix.Present(Get(SHAPE, Nodes(pages), p, d, k));
      }
    }
  }

  lemma SamePacked(p1: map<nat, Image>, p3: map<nat, Image>, s1: set<nat>, s3: set<nat>, root: nat, depth: nat, tag: nat)
    requires Ready(p1, s1, root, depth) && root != PAGE_ID_NONE && s3 <= s1 && Wrote(p1, p3, s1 - s3)
    ensures Packed(Nodes(p3), root, depth, tag) == Packed(Nodes(p1), root, depth, tag)
  {
    hide Valid, Occupies, Nodes, Wrote, Packed;
    NodesWrote(p1, p3, s1 - s3);
    IndexFrame(Nodes(p1), Nodes(p3), s1 - s3, root, depth);
  }

  /** What deleting a present handle from the inner tree gives the rest of the operation. */
  lemma InnerDeleted(hash: Hash, p1: map<nat, Image>, s1: set<nat>, root: nat, d1: nat, tag: u64, handle: u64,
                     p3: map<nat, Image>, s3: set<nat>, ni: nat, di: nat, f1: seq<nat>)
    requires Ready(p1, s1, root, d1) && root != PAGE_ID_NONE && SmallIds(s1) && s3 <= s1
    requires var p := Packed(Nodes(p1), root, d1, tag);
             && p != 0 && di == InnerDepth(p)
             && Radix.Rebuilt(hash, p1, s1, InnerRoot(p), di, handle, 0, p3, s3, ni, di, f1)
    requires ni in s1
    ensures var p := Packed(Nodes(p1), root, d1, tag);
            && BuiltFrom(Nodes(p1), p, Nodes(p3), ni, di, s1 - s3, f1)
            && PutAt(SHAPE, Nodes(p1), InnerRoot(p), di, Nodes(p3), ni, di, handle, 0)
            && Radix.IsTree(p3, ni, di) && ni < INNER_ROOT_LIMIT && Radix.Below(p3, ni, di)
            && (Radix.ItemsOf(p3, ni, di, 0) == [] <==> HandlesSet(Nodes(p1), p, handle, 0) == {})
  {
    hide Tree, Reach, Nodes, Get, Packed, Spine, AllStamped, Inners, InnersOk;
    var p := Packed(Nodes(p1), root, d1, tag);
    ReadyInner(p1, s1, root, d1, tag);
    InnerInOccupies(Nodes(p1), root, d1, tag);
    assert Reach(Nodes(p3), ni, di) <= InnerReach(Nodes(p1), p) + s1;
    InnerEmpty(p1, root, d1, tag, handle, p3, ni, di);
  }

  lemma InnerEmpty(p1: map<nat, Image>, root: nat, d1: nat, tag: u64, handle: u64, p3: map<nat, Image>, ni: nat, di: nat)
    requires Valid(Nodes(p1), root, d1) && ni < INNER_ROOT_LIMIT && di < 64 && Tree(SHAPE, Nodes(p3), ni, di)
    requires var p := Packed(Nodes(p1), root, d1, tag);
             PutAt(SHAPE, Nodes(p1), InnerRoot(p), InnerDepth(p), Nodes(p3), ni, di, handle, 0)
    ensures Radix.ItemsOf(p3, ni, di, 0) == []
       <==> HandlesSet(Nodes(p1), Packed(Nodes(p1), root, d1, tag), handle, 0) == {}
  {
    hide Tree, Reach, Nodes, Get, Packed, PutAt, Valid, Items;
    Radix.EmptyIffAbsent(p3, ni, di, 0);
    HandlesAfter(Nodes(p1), root, d1, tag, handle, 0, Nodes(p3), ni, di);
    PackRoundTrip(ni, di);
    NoHandlesIff(Nodes(p3), PackInner(ni, di));
  }

  lemma NoHandlesIff(h: Heap<nat>, packed: nat)
    requires forall k: nat | k > U64_MAX :: Get(SHAPE, h, InnerRoot(packed), InnerDepth(packed), k) == 0
    ensures Handles(h, packed) == {} <==> forall k: nat :: Get(SHAPE, h, InnerRoot(packed), InnerDepth(packed), k) == 0
  {
    hide Get;
    if Handles(h, packed) == {} {
      forall k: nat ensures Get(SHAPE, h, InnerRoot(packed), InnerDepth(packed), k) == 0 {
        assert k <= U64_MAX ==> k !in Handles(h, packed);
      }
    } else {
      var k :| k in Handles(h, packed);
      assert Get(SHAPE, h, InnerRoot(packed), InnerDepth(packed), k) != 0;
    }
  }

  /** The last handle gone: the tag is dropped and its inner tree freed whole. */
  lemma DropFinished(hash: Hash, p1: map<nat, Image>, s1: set<nat>, root: nat, d1: nat, tag: u64, key: u64,
                     p3: map<nat, Image>, s3: set<nat>, ni: nat, di: nat, f1: seq<nat>, g: seq<nat>,
                     p4: map<nat, Image>, s4: set<nat>, r: nat, d4: nat, f2: seq<nat>)
    requires Ready(p1, s1, root, d1) && root != PAGE_ID_NONE && SmallIds(s1) && s4 <= s3 <= s1
    requires Wrote(p1, p3, s1 - s3) && Wrote(p3, p4, s3 - s4)
    requires r in s3 && d4 <= MAX_DEPTH
    requires BuiltFrom(Nodes(p1), Packed(Nodes(p1), root, d1, tag), Nodes(p3), ni, di, s1 - s3, f1)
    requires Elems(g) == Reach(Nodes(p3), ni, di) && Distinct(g)
    requires Radix.Rebuilt(hash, p3, s3, root, d1, tag, 0, p4, s4, r, d4, f2)
    ensures r != PAGE_ID_NONE && ValidAt(p4, r, d4)
    ensures IndexOf(p4, r, d4) == IndexOf(p1, root, d1) - {tag}
    ensures Conserved(OccupiesOf(p1, root, d1), s1 - s4, OccupiesOf(p4, r, d4), f1 + g + f2)
  {
    hide Tree, Reach, Nodes, Get, Packed, PutAt, Built, Valid, Index, Occupies, Conserved, Wrote, BuiltFrom, Elems, Distinct;
    NodesWrote(p1, p3, s1 - s3);
    NodesWrote(p3, p4, s3 - s4);
    assert s1 - s4 == (s1 - s3) + (s3 - s4);
    AssembleDrop(Nodes(p1), root, d1, tag, key, s1 - s3, f1, g, Nodes(p3), ni, di, Nodes(p4), r, d4, s3 - s4, f2);
  }

  // ----- every page offered for reuse is a membership page -----

  lemma TypedAcross(p0: map<nat, Image>, p1: map<nat, Image>, A: set<nat>, B: set<nat>, all: set<nat>, f: seq<nat>)
    requires Wrote(p0, p1, A) && Radix.FreedTyped(p1, B, f) && A + B <= all
    ensures Radix.FreedTyped(p0, all, f)
  {
  }

  lemma TypedBoth(p0: map<nat, Image>, p1: map<nat, Image>, A: set<nat>, B: set<nat>, all: set<nat>, f: seq<nat>, g: seq<nat>)
    requires Wrote(p0, p1, A) && Radix.FreedTyped(p0, A, f) && Radix.FreedTyped(p1, B, g) && A + B <= all
    ensures Radix.FreedTyped(p0, all, f + g)
  {
  }

  lemma TypedSubtree(p0: map<nat, Image>, p1: map<nat, Image>, A: set<nat>, f: seq<nat>, g: seq<nat>)
    requires Wrote(p0, p1, A) && Radix.FreedTyped(p0, A, f) && forall q | q in g :: q in p1 && IsNode(p1[q])
    ensures Radix.FreedTyped(p0, A, f + g)
  {
  }

  /** After the outer root was found or created, it is a valid index meaning the same. */
  lemma RootReady(hash: Hash, p0: map<nat, Image>, s0: set<nat>, r0: nat, d0: nat, p1: map<nat, Image>, s1: set<nat>, r1: nat, d1: nat)
    requires Ready(p0, s0, r0, d0) && SmallIds(s0)
    requires if r0 == PAGE_ID_NONE then
               r1 in s0 && s1 == s0 - {r1} && d1 == 0 && p1 == p0[r1 := Stamp(hash, NewPage(TYPE_MEMBERSHIP_LEAF))]
             else p1 == p0 && s1 == s0 && r1 == r0 && d1 == d0
    ensures r1 != PAGE_ID_NONE && Ready(p1, s1, r1, d1)
    ensures IndexOf(p1, r1, d1) == IndexOf(p0, r0, d0)
    ensures OccupiesOf(p0, r0, d0) + (s0 - s1) == OccupiesOf(p1, r1, d1)
  {
    hide Valid, Occupies, Index, Nodes, Stamp;
    if r0 == PAGE_ID_NONE {
      NewPageNode(hash, p1, r1, 0);
      hide EmptyNode;
      EmptyIndex(Nodes(p1), r1);
    }
  }

  /** After the inner root was found or created, its tree is ready. */
  lemma InnerPrepared(p1: map<nat, Image>, s1: set<nat>, root: nat, d1: nat, tag: u64,
                      p2: map<nat, Image>, s2: set<nat>, c: nat, d2: nat)
    requires Ready(p1, s1, root, d1) && root != PAGE_ID_NONE && s2 <= s1 && Wrote(p1, p2, s1 - s2)
    requires var p := Packed(Nodes(p1), root, d1, tag);
             if InnerRoot(p) == 0 then c in s1 && s2 == s1 - {c} && EmptyNode(SHAPE, Nodes(p2), c, 0) && d2 == 0
             else c == InnerRoot(p) && d2 == InnerDepth(p) && s2 == s1
    ensures Radix.Ready(p2, s2, c, d2)
    ensures var p := Packed(Nodes(p1), root, d1, tag);
            && Reach(Nodes(p2), c, d2) == InnerReach(Nodes(p1), p) + (s1 - s2)
            && SameValues(SHAPE, Nodes(p1), InnerRoot(p), InnerDepth(p), Nodes(p2), c, d2)
  {
    hide Tree, Reach, Nodes, Get, Occupies, Valid, Spine, Packed, EmptyNode;
    var p := Packed(Nodes(p1), root, d1, tag);
    ReadyInner(p1, s1, root, d1, tag);
    if p == 0 {
      EmptyNodeIsTree(SHAPE, Nodes(p2), c, 0);
      InnerInOccupies(Nodes(p1), root, d1, tag);
      NothingThere(Nodes(p1), p);
    } else {
      NodesWrote(p1, p2, s1 - s2);
      WroteKeeps(Nodes(p1), Nodes(p2), s1 - s2, Reach(Nodes(p1), c, d2));
      FrameAll(SHAPE, Nodes(p1), Nodes(p2), c, d2);
    }
  }

  lemma NothingThere(h: Heap<nat>, packed: nat)
    requires InnerRoot(packed) == 0
    ensures InnerReach(h, packed) == {}
    ensures forall k: nat :: Get(SHAPE, h, InnerRoot(packed), InnerDepth(packed), k) == 0
  {
  }

  /** The inner mutation, seen from the index it started from. */
  lemma InnerRebuilt(hash: Hash, p1: map<nat, Image>, s1: set<nat>, root: nat, d1: nat, tag: u64,
                     p2: map<nat, Image>, s2: set<nat>, c: nat, d2: nat, key: nat, v: nat,
                     p3: map<nat, Image>, s3: set<nat>, ni: nat, di: nat, f1: seq<nat>)
    requires s3 <= s2 <= s1
    requires var p := Packed(Nodes(p1), root, d1, tag);
             && Reach(Nodes(p2), c, d2) == InnerReach(Nodes(p1), p) + (s1 - s2)
             && SameValues(SHAPE, Nodes(p1), InnerRoot(p), InnerDepth(p), Nodes(p2), c, d2)
    requires Radix.Rebuilt(hash, p2, s2, c, d2, key, v, p3, s3, ni, di, f1)
    ensures var p := Packed(Nodes(p1), root, d1, tag);
            && BuiltFrom(Nodes(p1), p, Nodes(p3), ni, di, s1 - s3, f1)
            && PutAt(SHAPE, Nodes(p1), InnerRoot(p), InnerDepth(p), Nodes(p3), ni, di, key, v)
  {
    hide Tree, Reach, Nodes, Get, Packed, PutAt, Spine, SameValues, AllStamped;
    var p := Packed(Nodes(p1), root, d1, tag);
    assert s1 - s3 == (s1 - s2) + (s2 - s3);
    PutAfterSame(SHAPE, Nodes(p1), InnerRoot(p), InnerDepth(p), Nodes(p2), c, d2, Nodes(p3), ni, di, key, v);
  }

  /** Inner and outer mutation together change exactly one pair. */
  lemma SetFinished(hash: Hash, p1: map<nat, Image>, s1: set<nat>, root: nat, d1: nat, tag: u64, key: u64, v: nat,
                    p3: map<nat, Image>, s3: set<nat>, ni: nat, di: nat, f1: seq<nat>,
                    p4: map<nat, Image>, s4: set<nat>, r: nat, d4: nat, f2: seq<nat>)
    requires Ready(p1, s1, root, d1) && root != PAGE_ID_NONE && SmallIds(s1) && s4 <= s3 <= s1
    requires Wrote(p1, p3, s1 - s3) && Wrote(p3, p4, s3 - s4)
    requires ni in s1 && di <= MAX_DEPTH && r in s3 && d4 <= MAX_DEPTH
    requires BuiltFrom(Nodes(p1), Packed(Nodes(p1), root, d1, tag), Nodes(p3), ni, di, s1 - s3, f1)
    requires PutAt(SHAPE, Nodes(p1), InnerRoot(Packed(Nodes(p1), root, d1, tag)), InnerDepth(Packed(Nodes(p1), root, d1, tag)),
                   Nodes(p3), ni, di, key, v)
    requires Radix.Rebuilt(hash, p3, s3, root, d1, tag, PackInner(ni, di), p4, s4, r, d4, f2)
    requires HandlesSet(Nodes(p1), Packed(Nodes(p1), root, d1, tag), key, v) != {}
    ensures r != PAGE_ID_NONE && ValidAt(p4, r, d4)
    ensures IndexOf(p4, r, d4)
         == IndexOf(p1, root, d1)[tag := HandlesSet(Nodes(p1), Packed(Nodes(p1), root, d1, tag), key, v)]
    ensures Conserved(OccupiesOf(p1, root, d1), s1 - s4, OccupiesOf(p4, r, d4), f1 + f2)
  {
    hide Tree, Reach, Nodes, Get, Packed, PutAt, Built, Valid, Index, Occupies, Conserved, Wrote, BuiltFrom, HandlesSet;
    NodesWrote(p1, p3, s1 - s3);
    NodesWrote(p3, p4, s3 - s4);
    assert s1 - s4 == (s1 - s3) + (s3 - s4);
    AssembleSet(Nodes(p1), root, d1, tag, key, v, s1 - s3, f1, Nodes(p3), ni, di, Nodes(p4), r, d4, s3 - s4, f2);
  }

  /** Pages drawn to create the root count as drawn. */
  lemma FinishConserved(p0: map<nat, Image>, s0: set<nat>, r0: nat, d0: nat, p1: map<nat, Image>, s1: set<nat>, r1: nat, d1: nat,
                        p4: map<nat, Image>, s4: set<nat>, r: nat, d4: nat, freed: seq<nat>)
    requires s4 <= s1 <= s0 && OccupiesOf(p0, r0, d0) + (s0 - s1) == OccupiesOf(p1, r1, d1)
    requires Conserved(OccupiesOf(p1, r1, d1), s1 - s4, OccupiesOf(p4, r, d4), freed)
    ensures Conserved(OccupiesOf(p0, r0, d0), s0 - s4, OccupiesOf(p4, r, d4), freed)
  {
    hide OccupiesOf, Distinct, Elems;
    assert s0 - s4 == (s0 - s1) + (s1 - s4);
  }
}
