/**
 What a superblock's roots stand for: a handle table, a membership index and a free-page map, in the
 pages of one file. Only page bodies count, and only of the pages the three structures occupy.
 */
module DatabaseState {
  import opened Pages
  import opened RadixTree
  import opened Superblock
  import opened HandlePages
  import HandleTable
  import MembershipPages
  import MembershipModel
  import MembershipIndex
  import FreeMapPages
  import FreeMapSession

  type Store = map<nat, Image>

  datatype State = State(handles: map<nat, HandleEntry>, members: map<nat, set<nat>>, free: iset<nat>)

  /** The depths that opening finds by walking down from the roots; the freemap's is in the superblock. */
  datatype Depths = Depths(handles: nat, members: nat)

  ghost function DiskMap(disk: seq<Image>): Store {
    map q: nat | q < |disk| :: disk[q]
  }

  /** No table at all means no handles. */
  ghost predicate TableIs(pages: Store, root: nat, depth: nat, contents: map<nat, HandleEntry>) {
    if root == PAGE_ID_NONE then contents == map[] else HandleTable.Valid(pages, root, depth) && HandleTable.Map(pages, root, depth) == contents
  }

  ghost function TablePages(pages: Store, root: nat, depth: nat): set<nat> {
    if root == PAGE_ID_NONE then {} else HandleTable.Occupies(pages, root, depth)
  }

  ghost predicate IndexIs(pages: Store, root: nat, depth: nat, index: map<nat, set<nat>>) {
    MembershipIndex.ValidAt(pages, root, depth) && MembershipIndex.IndexOf(pages, root, depth) == index
  }

  /** No freemap at all means no free pages. */
  ghost predicate FreeIs(pages: Store, root: nat, depth: nat, free: iset<nat>) {
    if root == PAGE_ID_NONE then free == iset{}
    else
      && 0 < root && depth <= FreeMapPages.MAX_DEPTH && Tree(FreeMapPages.SHAPE, FreeMapPages.Nodes(pages), root, depth)
      && FreeMapSession.InRange(pages, root, depth) && FreeMapSession.FreeIds(pages, root, depth) == free
  }

  ghost function FreePages(pages: Store, root: nat, depth: nat): set<nat> {
    if root == PAGE_ID_NONE then {} else Reach(FreeMapPages.Nodes(pages), root, depth)
  }

  ghost predicate StateIs(pages: Store, roots: Roots, d: Depths, st: State) {
    && TableIs(pages, roots.handleTable, d.handles, st.handles)
    && IndexIs(pages, roots.membership, d.members, st.members)
    && FreeIs(pages, roots.freemap, roots.freemapDepth, st.free)
  }

  ghost function StatePages(pages: Store, roots: Roots, d: Depths): set<nat> {
    TablePages(pages, roots.handleTable, d.handles) + MembershipIndex.OccupiesOf(pages, roots.membership, d.members)
    + FreePages(pages, roots.freemap, roots.freemapDepth)
  }

  // ----- the pages of a state -----

  lemma TableStored(pages: Store, root: nat, depth: nat, contents: map<nat, HandleEntry>)
    requires TableIs(pages, root, depth, contents)
    ensures TablePages(pages, root, depth) <= pages.Keys
  {
    if root != PAGE_ID_NONE {
      ReachStored(HandlePages.SHAPE, HandlePages.Nodes(pages), root, depth);
    }
  }

  lemma IndexStored(pages: Store, root: nat, depth: nat)
    requires MembershipIndex.ValidAt(pages, root, depth)
    ensures MembershipIndex.OccupiesOf(pages, root, depth) <= pages.Keys
  {
    hide Tree, Reach, MembershipModel.Packed;
    if root != PAGE_ID_NONE {
      var h := MembershipPages.Nodes(pages);
      ReachStored(MembershipPages.SHAPE, h, root, depth);
      forall tag: nat ensures MembershipModel.InnerReach(h, MembershipModel.Packed(h, root, depth, tag)) <= pages.Keys {
        InnerStored(pages, root, depth, tag);
      }
    }
  }

  lemma InnerStored(pages: Store, root: nat, depth: nat, tag: nat)
    requires MembershipModel.Valid(MembershipPages.Nodes(pages), root, depth)
    ensures var h := MembershipPages.Nodes(pages);
            MembershipModel.InnerReach(h, MembershipModel.Packed(h, root, depth, tag)) <= pages.Keys
  {
    hide Tree, MembershipModel.Packed;
    var h := MembershipPages.Nodes(pages);
    var p := MembershipModel.Packed(h, root, depth, tag);
    if p != 0 {
      assert MembershipModel.InnerOk(h, p, Reach(h, root, depth));
      ReachStored(MembershipPages.SHAPE, h, MembershipModel.InnerRoot(p), MembershipModel.InnerDepth(p));
    } else {
      assert MembershipModel.InnerRoot(0) == 0;
    }
  }

  lemma FreeStored(pages: Store, root: nat, depth: nat, free: iset<nat>)
    requires FreeIs(pages, root, depth, free)
    ensures FreePages(pages, root, depth) <= pages.Keys
  {
    if root != PAGE_ID_NONE {
      ReachStored(FreeMapPages.SHAPE, FreeMapPages.Nodes(pages), root, depth);
    }
  }

  lemma StateStored(pages: Store, roots: Roots, d: Depths, st: State)
    requires StateIs(pages, roots, d, st)
    ensures StatePages(pages, roots, d) <= pages.Keys
  {
    hide TableIs, TablePages, FreeIs, FreePages, MembershipIndex.ValidAt, MembershipIndex.OccupiesOf, MembershipIndex.IndexOf;
    TableStored(pages, roots.handleTable, d.handles, st.handles);
    IndexStored(pages, roots.membership, d.members);
    FreeStored(pages, roots.freemap, roots.freemapDepth, st.free);
  }

  // ----- a state does not depend on anything but the bodies of its pages -----

  ghost predicate SameBodies(p0: Store, p1: Store, Q: set<nat>) {
    forall q | q in Q :: q in p0 && q in p1 && Body(p0[q]) == Body(p1[q])
  }

  lemma TableKept(p0: Store, p1: Store, root: nat, depth: nat, contents: map<nat, HandleEntry>)
    requires TableIs(p0, root, depth, contents) && SameBodies(p0, p1, TablePages(p0, root, depth))
    ensures TableIs(p1, root, depth, contents) && TablePages(p1, root, depth) == TablePages(p0, root, depth)
  {
    hide HandleTable.Valid, HandleTable.Map, HandleTable.Occupies, Body;
    if root != PAGE_ID_NONE {
      HandleTable.BodiesDecide(p0, p1, root, depth);
    }
  }

  lemma IndexKept(p0: Store, p1: Store, root: nat, depth: nat)
    requires MembershipIndex.ValidAt(p0, root, depth) && SameBodies(p0, p1, MembershipIndex.OccupiesOf(p0, root, depth))
    ensures MembershipIndex.ValidAt(p1, root, depth) && MembershipIndex.IndexOf(p1, root, depth) == MembershipIndex.IndexOf(p0, root, depth)
    ensures MembershipIndex.OccupiesOf(p1, root, depth) == MembershipIndex.OccupiesOf(p0, root, depth)
  {
    hide MembershipModel.Valid, MembershipModel.Index, MembershipModel.Occupies, Body;
    if root != PAGE_ID_NONE {
      var h0, h1, occ := MembershipPages.Nodes(p0), MembershipPages.Nodes(p1), MembershipIndex.OccupiesOf(p0, root, depth);
      forall q | q in occ ensures q in h0 && q in h1 && h0[q] == h1[q] {
        MembershipPages.BodyDecides(p0[q], p1[q]);
      }
      hide MembershipPages.Nodes;
      assert Wrote(h0, h1, h0.Keys + h1.Keys - occ);
      MembershipModel.IndexFrame(h0, h1, h0.Keys + h1.Keys - occ, root, depth);
    }
  }

  lemma FreeKept(p0: Store, p1: Store, root: nat, depth: nat, free: iset<nat>)
    requires FreeIs(p0, root, depth, free) && SameBodies(p0, p1, FreePages(p0, root, depth))
    ensures FreeIs(p1, root, depth, free) && FreePages(p1, root, depth) == FreePages(p0, root, depth)
  {
    hide Tree, Reach, Body, FreeMapSession.FreeIds, FreeMapSession.InRange;
    if root != PAGE_ID_NONE {
      var h0, h1 := FreeMapPages.Nodes(p0), FreeMapPages.Nodes(p1);
      forall q | q in FreePages(p0, root, depth) ensures SameAt(h0, h1, q) {
        FreeMapPages.BodyDecides(p0[q], p1[q]);
      }
      hide FreeMapPages.Nodes;
      FrameAll(FreeMapPages.SHAPE, h0, h1, root, depth);
      FreeMapSession.SameFree(p0, root, depth, p1, root, depth);
    }
  }

  lemma StateKept(p0: Store, p1: Store, roots: Roots, d: Depths, st: State)
    requires StateIs(p0, roots, d, st) && SameBodies(p0, p1, StatePages(p0, roots, d))
    ensures StateIs(p1, roots, d, st) && StatePages(p1, roots, d) == StatePages(p0, roots, d)
  {
    hide TableIs, TablePages, FreeIs, FreePages, MembershipIndex.ValidAt, MembershipIndex.OccupiesOf, MembershipIndex.IndexOf, Body;
    TableKept(p0, p1, roots.handleTable, d.handles, st.handles);
    IndexKept(p0, p1, roots.membership, d.members);
    FreeKept(p0, p1, roots.freemap, roots.freemapDepth, st.free);
  }
}
