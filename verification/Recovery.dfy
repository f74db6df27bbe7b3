/**
 Atomic commit and opening. Whatever a crash leaves of a commit, the file opens at the state before it
 or at the state it wrote: handle table, membership index and freemap together.
 */
module Recovery {
  import opened Pages
  import opened RadixTree
  import opened Superblock
  import opened Commit
  import opened DatabaseState
  import HandleTable
  import MembershipPages
  import MembershipIndex
  import Radix = RadixU64
  import Cache = PageCache
  import CacheState

  /** Opening `disk` selects a superblock with `roots`, and they stand for `st`. */
  ghost predicate OpensAt(hash: Hash, disk: seq<Image>, roots: Roots, d: Depths, st: State) {
    Opens(SlotsOf(hash, disk[..Min(MAX_SUPERBLOCKS, |disk|)]), roots) && StateIs(DiskMap(disk), roots, d, st)
  }

  /**
   Atomic commit. From a file that would survive a torn slot write and opens at the state `st0`, let a
   transaction write `dirty`, pages that state does not use, so that the pages it wrote and pages it
   left alone hold the state `st1`, and then commit. On any disk a crash may leave, opening finds
   `st0` or `st1`; and it finds `st1` if the commit's slot was written.
   */
  lemma CommitAtomic(hash: Hash, before: seq<Image>, disk: seq<Image>, n: nat, w: nat, sb: Superblock,
                     dirty: set<nat>, after: Store, d0: Depths, st0: State, d1: Depths, st1: State)
    requires 2 <= n <= MAX_SUPERBLOCKS && n <= |before| && Guarded(SlotsOf(hash, before[..n]), w)
    requires var cur := SlotsOf(hash, before[..n])[w].value;
             && cur.txnCounter < MAX_TXN_COUNTER && sb.txnCounter == cur.txnCounter + 1 && Writable(sb)
             && CrashDisk(hash, before, disk, n, sb.txnCounter % n, sb, dirty, after)
             && StateIs(DiskMap(before), cur.roots, d0, st0) && StatePages(DiskMap(before), cur.roots, d0) !! dirty
             && forall q | q in StatePages(DiskMap(before), cur.roots, d0) :: q >= n
    requires StateIs(after, sb.roots, d1, st1) && forall q | q in dirty :: q >= n
    requires forall q | q in StatePages(after, sb.roots, d1) :: q >= n && (q in dirty || (q in after && q < |before| && after[q] == before[q]))
    ensures OpensAt(hash, disk, SlotsOf(hash, before[..n])[w].value.roots, d0, st0) || OpensAt(hash, disk, sb.roots, d1, st1)
    ensures disk[sb.txnCounter % n] == Serialize(hash, sb) ==> OpensAt(hash, disk, sb.roots, d1, st1)
  {
    hide Deserialize, Serialize, Writable, StateIs, StatePages, Wins, Guarded, CrashDisk, SlotsOf, DiskMap;
    Unguarded(SlotsOf(hash, before[..n]), w);
    WinnerThere(SlotsOf(hash, before[..n]), w);
    var cur, k := SlotsOf(hash, before[..n])[w].value, sb.txnCounter % n;
    CrashSlot(hash, before, disk, n, k, sb, dirty, after);
    var v := CrashSelects(hash, before, disk, n, w, sb, dirty, after);
    SlotAt(hash, disk, Min(MAX_SUPERBLOCKS, |disk|), v);
    if disk[k] == Serialize(hash, sb) {
      CrashComplete(hash, before, disk, n, w, k, sb, dirty, after);
      NewState(before, disk, n, k, dirty, after, sb.roots, d1, st1);
    } else {
      OldState(hash, before, disk, n, k, sb, dirty, after, cur.roots, d0, st0);
    }
  }

  lemma WinnerThere(s: Slots, w: nat)
    requires Wins(s, w)
    ensures w < |s| && s[w].Some?
  {
  }

  /** If the new superblock is in its slot, which it was not before, the flush is complete. */
  lemma CrashComplete(hash: Hash, before: seq<Image>, disk: seq<Image>, n: nat, w: nat, k: nat, sb: Superblock, dirty: set<nat>, after: Store)
    requires 0 < n <= |before| && Wins(SlotsOf(hash, before[..n]), w) && k == sb.txnCounter % n
    requires sb.txnCounter == SlotsOf(hash, before[..n])[w].value.txnCounter + 1 && Writable(sb)
    requires CrashDisk(hash, before, disk, n, k, sb, dirty, after) && disk[k] == Serialize(hash, sb)
    ensures k < n <= |before| <= |disk|
    ensures forall q: nat | q < |before| && q != k && q !in dirty :: disk[q] == before[q]
    ensures forall q | q in dirty :: q < |disk| && q in after && disk[q] == after[q]
  {
    hide Deserialize, Serialize, Writable;
    RoundTrip(hash, sb);
    SlotAt(hash, before, n, k);
  }

  lemma OldState(hash: Hash, before: seq<Image>, disk: seq<Image>, n: nat, k: nat, sb: Superblock, dirty: set<nat>, after: Store,
                 roots: Roots, d: Depths, st: State)
    requires CrashDisk(hash, before, disk, n, k, sb, dirty, after) && StateIs(DiskMap(before), roots, d, st)
    requires StatePages(DiskMap(before), roots, d) !! dirty && forall q | q in StatePages(DiskMap(before), roots, d) :: q >= n
    ensures StateIs(DiskMap(disk), roots, d, st)
  {
    hide StateIs, StatePages, Serialize, Deserialize, NoImpostor, Body;
    StateStored(DiskMap(before), roots, d, st);
    StateKept(DiskMap(before), DiskMap(disk), roots, d, st);
  }

  lemma NewState(before: seq<Image>, disk: seq<Image>, n: nat, k: nat, dirty: set<nat>, after: Store, roots: Roots, d: Depths, st: State)
    requires k < n <= |before| <= |disk| && StateIs(after, roots, d, st)
    requires forall q: nat | q < |before| && q != k && q !in dirty :: disk[q] == before[q]
    requires forall q | q in dirty :: q < |disk| && q in after && disk[q] == after[q]
    requires forall q | q in StatePages(after, roots, d) :: q >= n && (q in dirty || (q in after && q < |before| && after[q] == before[q]))
    ensures StateIs(DiskMap(disk), roots, d, st)
  {
    hide StateIs, StatePages, Body;
    StateKept(after, DiskMap(disk), roots, d, st);
  }

  /**
   At any point of a cache flush, with any part `written` of the unsaved pages on disk, a state that
   lies in none of them is as it was: the flush writes each page whole, and touches no other.
   */
  lemma MidFlush(hash: Hash, e: CacheState.Entries, c: map<nat, seq<byte>>, before: seq<Image>, disk: seq<Image>, written: set<nat>,
                 roots: Roots, d: Depths, st: State)
    requires Cache.DiskGot(hash, e, c, before, disk, written) && written <= CacheState.Pending(e, c)
    requires StateIs(DiskMap(before), roots, d, st) && StatePages(DiskMap(before), roots, d) !! CacheState.Pending(e, c)
    ensures StateIs(DiskMap(disk), roots, d, st)
  {
    hide StateIs, StatePages, CacheState.Pending, Body;
    StateStored(DiskMap(before), roots, d, st);
    StateKept(DiskMap(before), DiskMap(disk), roots, d, st);
  }

  /** Opening a file: select the superblock, then find the depths of its handle table and membership index. */
  method Open(hash: Hash, disk: seq<Image>) returns (r: Option<(nat, Superblock)>, depths: Result<Depths>)
    ensures var cand := SlotsOf(hash, disk[..Min(MAX_SUPERBLOCKS, |disk|)]);
            && (r.Some? ==> Wins(cand, r.value.0) && cand[r.value.0] == Some(r.value.1))
            && (r.None? ==> NoneValid(cand))
    ensures r.Some? ==> r.value.0 < |disk| && Stamp(hash, disk[r.value.0]) == disk[r.value.0] && disk[r.value.0][..HEAD_SIZE] == Head(r.value.1)
    ensures r.Some? ==> forall d: Depths, st: State | StateIs(DiskMap(disk), r.value.1.roots, d, st) ::
                          depths == Ok(Found(r.value.1.roots, d))
  {
    hide Deserialize, NoneValid, Wins, StateIs, Found, Stamp, Head;
    r := Select(hash, disk[..Min(MAX_SUPERBLOCKS, |disk|)]);
    depths := Ok(Depths(0, 0));
    if r.Some? {
      WinnerThere(SlotsOf(hash, disk[..Min(MAX_SUPERBLOCKS, |disk|)]), r.value.0);
      var roots := r.value.1.roots;
      var store := new PageStore(map q: nat | q < |disk| :: disk[q], {}, hash);
      assert store.pages == DiskMap(disk);
      var handles := HandleTable.HandleTable.RecoverDepth(store, roots.handleTable);
      var members := Radix.RadixU64.RecoverDepth(store, roots.membership);
      depths := if handles.Err? then Err(handles.error) else if members.Err? then Err(members.error) else Ok(Depths(handles.value, members.value));
      forall d: Depths, st: State | StateIs(store.pages, roots, d, st) ensures depths == Ok(Found(roots, d)) {
        DepthsFound(store.pages, roots, d, st);
      }
    }
  }

  /** The depths of the structures there are, and 0 for those there are not. */
  function Found(roots: Roots, d: Depths): Depths {
    Depths(if roots.handleTable == PAGE_ID_NONE then 0 else d.handles, if roots.membership == PAGE_ID_NONE then 0 else d.members)
  }

  lemma DepthsFound(pages: Store, roots: Roots, d: Depths, st: State)
    requires StateIs(pages, roots, d, st)
    ensures roots.handleTable != PAGE_ID_NONE ==> HandleTable.Valid(pages, roots.handleTable, d.handles)
    ensures roots.membership != PAGE_ID_NONE ==>
              d.members <= MembershipPages.MAX_DEPTH && Radix.OnSpine(pages, roots.membership, d.members)
    ensures Found(roots, d).handles == if roots.handleTable == PAGE_ID_NONE then 0 else d.handles
    ensures Found(roots, d).members == if roots.membership == PAGE_ID_NONE then 0 else d.members
  {
    hide HandleTable.Valid, HandleTable.Map, Tree, Spine;
  }
}
