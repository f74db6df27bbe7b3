/**
 Overflow chains: a value too long for a data page is spread over a singly linked chain of pages,
 each holding the total length, the next page id and 8152 payload bytes. Readers walk whatever is
 on disk, so the walks are specified on arbitrary page graphs.
 */
module Overflow {
  import opened Pages
  import opened RadixTree

  const HEADER_END: nat := 32
  const PAYLOAD: nat := 8152

  function PagesFor(length: nat): nat {
    (length + PAYLOAD - 1) / PAYLOAD
  }

  function LengthAt(buf: Image): u64 {
    U64At(buf, 16)
  }

  function NextAt(buf: Image): u64 {
    U64At(buf, 24)
  }

  /** The `i`th stretch of a value. */
  function Chunk(value: seq<byte>, i: nat): (c: seq<byte>)
    requires i * PAYLOAD <= |value|
    ensures |c| == Min(|value| - i * PAYLOAD, PAYLOAD)
  {
    value[i * PAYLOAD..Min((i + 1) * PAYLOAD, |value|)]
  }

  function ChainPage(length: u64, next: u64, chunk: seq<byte>): Image
    requires |chunk| <= PAYLOAD
  {
    Splice(Splice(Splice(Zeros()[0 := TYPE_OVERFLOW], 16, Le64(length)), 24, Le64(next)), HEADER_END, chunk)
  }

  lemma ChainPageReads(hash: Hash, length: u64, next: u64, chunk: seq<byte>)
    requires |chunk| <= PAYLOAD
    ensures var buf := Stamp(hash, ChainPage(length, next, chunk));
            && buf[0] == TYPE_OVERFLOW && LengthAt(buf) == length && NextAt(buf) == next
            && buf[HEADER_END..HEADER_END + |chunk|] == chunk && Stamped(hash, buf)
  {
    hide Le64, U64At;
    var a := Splice(Zeros()[0 := TYPE_OVERFLOW], 16, Le64(length));
    var b := Splice(a, 24, Le64(next));
    var c := ChainPage(length, next, chunk);
    SpliceReads(Zeros()[0 := TYPE_OVERFLOW], 16, Le64(length));
    SpliceReads(a, 24, Le64(next));
    SpliceFrames(a, 24, Le64(next), 16, 24);
    SpliceReads(b, HEADER_END, chunk);
    SpliceFrames(b, HEADER_END, chunk, 16, 24);
    SpliceFrames(b, HEADER_END, chunk, 24, 32);
    StampVerifies(hash, c);
    var s := Stamp(hash, c);
    BodySlice(hash, c, 16, 24);
    BodySlice(hash, c, 24, 32);
    BodySlice(hash, c, HEADER_END, HEADER_END + |chunk|);
    assert s[0] == Body(s)[0] == Body(c)[0];
    U64Decodes(s, 16, length);
    U64Decodes(s, 24, next);
  }

  lemma BodySlice(hash: Hash, buf: Image, a: nat, b: nat)
    requires a <= b <= CHECKSUM_OFFSET
    ensures Stamp(hash, buf)[a..b] == buf[a..b]
  {
    hide Le64;
    SpliceFrames(buf, CHECKSUM_OFFSET, Le64(hash(Body(buf))), a, b);
  }

  // ----- chains -----

  predicate IsOverflow(pages: map<nat, Image>, p: nat) {
    p in pages && pages[p][0] == TYPE_OVERFLOW
  }

  /** `ids` follows the next pointers, and the last one leads to `end`. */
  ghost predicate Linked(pages: map<nat, Image>, ids: seq<nat>, end: nat) {
    forall i: nat | i < |ids| :: LinkAt(pages, ids, i, end)
  }

  ghost predicate LinkAt(pages: map<nat, Image>, ids: seq<nat>, i: nat, end: nat)
    requires i < |ids|
  {
    IsOverflow(pages, ids[i]) && NextAt(pages[ids[i]]) == if i + 1 < |ids| then ids[i + 1] else end
  }

  /** `ids` is a complete chain from `first`. */
  ghost predicate Chain(pages: map<nat, Image>, first: nat, ids: seq<nat>) {
    |ids| > 0 && ids[0] == first && Linked(pages, ids, 0) && forall i | 0 < i < |ids| :: ids[i] != 0
  }

  /** No page occurs twice in a complete chain. */
  lemma ChainDistinct(pages: map<nat, Image>, first: nat, ids: seq<nat>)
    requires Chain(pages, first, ids)
    ensures Distinct(ids)
  {
    forall i, j | 0 <= i < j < |ids| ensures ids[i] != ids[j] {
      NoRepeat(pages, first, ids, i, j);
    }
  }

  lemma {:induction false} NoRepeat(pages: map<nat, Image>, first: nat, ids: seq<nat>, i: nat, j: nat)
    requires Chain(pages, first, ids) && i < j < |ids|
    ensures ids[i] != ids[j]
    decreases |ids| - j
  {
    assert LinkAt(pages, ids, i, 0) && LinkAt(pages, ids, j, 0);
    if ids[i] == ids[j] {
      if j + 1 < |ids| {
        NoRepeat(pages, first, ids, i + 1, j + 1);
      }
    }
  }

  /** There is at most one complete chain from a page. */
  lemma ChainUnique(pages: map<nat, Image>, first: nat, a: seq<nat>, b: seq<nat>)
    requires Chain(pages, first, a) && Chain(pages, first, b)
    ensures a == b
  {
    if |a| <= |b| {
      ChainSame(pages, first, a, b);
    } else {
      ChainSame(pages, first, b, a);
    }
  }

  lemma ChainSame(pages: map<nat, Image>, first: nat, a: seq<nat>, b: seq<nat>)
    requires Chain(pages, first, a) && Chain(pages, first, b) && |a| <= |b|
    ensures a == b
  {
    ChainPrefix(pages, first, a, b, |a| - 1);
    assert LinkAt(pages, a, |a| - 1, 0) && LinkAt(pages, b, |a| - 1, 0);
  }

  lemma {:induction false} ChainPrefix(pages: map<nat, Image>, first: nat, a: seq<nat>, b: seq<nat>, k: nat)
    requires Chain(pages, first, a) && Chain(pages, first, b) && k < |a| <= |b|
    ensures forall i | 0 <= i <= k :: a[i] == b[i]
  {
    if k > 0 {
      ChainPrefix(pages, first, a, b, k - 1);
      assert LinkAt(pages, a, k - 1, 0) && LinkAt(pages, b, k - 1, 0);
    }
  }

  /** The first `total` payload bytes of the first `n` pages of a chain. */
  ghost function Gather(pages: map<nat, Image>, ids: seq<nat>, n: nat, total: nat): seq<byte>
    requires n <= |ids| && forall i | 0 <= i < n :: ids[i] in pages
  {
    if n == 0 then []
    else if (n - 1) * PAYLOAD >= total then Gather(pages, ids, n - 1, total)
    else Gather(pages, ids, n - 1, total) + pages[ids[n - 1]][HEADER_END..HEADER_END + Min(total - (n - 1) * PAYLOAD, PAYLOAD)]
  }

  lemma {:induction false} GatherLength(pages: map<nat, Image>, ids: seq<nat>, n: nat, total: nat)
    requires n <= |ids| && forall i | 0 <= i < n :: ids[i] in pages
    ensures |Gather(pages, ids, n, total)| == Min(n * PAYLOAD, total)
  {
    if n > 0 {
      GatherLength(pages, ids, n - 1, total);
    }
  }

  lemma {:induction false} GatherPrefix(pages: map<nat, Image>, a: seq<nat>, b: seq<nat>, n: nat, total: nat)
    requires n <= |a| && n <= |b| && a[..n] == b[..n] && forall i | 0 <= i < n :: a[i] in pages
    ensures (forall i | 0 <= i < n :: b[i] in pages) && Gather(pages, a, n, total) == Gather(pages, b, n, total)
  {
    assert forall i | 0 <= i < n :: a[..n][i] == b[..n][i];
    if n > 0 {
      assert a[n - 1] == b[n - 1];
      assert a[..n - 1] == a[..n][..n - 1] && b[..n - 1] == b[..n][..n - 1];
      GatherPrefix(pages, a, b, n - 1, total);
    }
  }

  /** The chain stores `value`. */
  ghost predicate Stores(pages: map<nat, Image>, first: nat, ids: seq<nat>, value: seq<byte>) {
    && Chain(pages, first, ids) && |ids| == PagesFor(|value|)
    && (forall i: nat | i < |ids| :: ids[i] in pages) && first in pages
    && LengthAt(pages[first]) == |value|
    && Gather(pages, ids, |ids|, |value|) == value
  }

  // ----- writing -----

  /** Allocate every page of the chain, then fill them in order. */
  method Write(store: PageStore, value: seq<byte>) returns (r: Result<nat>, ghost ids: seq<nat>)
    requires 0 < |value| <= U64_MAX && forall id | id in store.supply :: 0 < id < PAGE_ID_NONE
    modifies store
    ensures store.asked <= old(store.asked) + PagesFor(|value|)
    ensures store.refusals == old(store.refusals) + if r.Err? then 1 else 0
    ensures store.supply <= old(store.supply) && Wrote(old(store.pages), store.pages, old(store.supply) - store.supply)
    ensures r.Err? ==> r.error == AllocFailed
    ensures r.Ok? ==> Elems(ids) == old(store.supply) - store.supply && Distinct(ids)
    ensures r.Ok? ==> Stores(store.pages, r.value, ids, value)
    ensures r.Ok? ==> AllStamped(store.hash, store.pages, Elems(ids))
  {
    hide Stamp, ChainPage, LengthAt, NextAt, Stamped, Chunk, Gather;
    ghost var p0, s0 := store.pages, store.supply;
    var numPages := PagesFor(|value|);
    var pageIds: seq<nat> := [];
    assert s0 - s0 == {} == Elems([]);
    for k := 0 to numPages
      invariant |pageIds| == k && Distinct(pageIds) && store.supply <= s0 && Elems(pageIds) == s0 - store.supply
      invariant Wrote(p0, store.pages, s0 - store.supply)
      invariant store.asked == old(store.asked) + k && store.refusals == old(store.refusals)
    {
      ghost var s1, p1 := store.supply, store.pages;
      var a := store.Alloc();
      if a.Err? {
        ids := pageIds;
        return Err(a.error), ids;
      }
      assert a.value in s1 && a.value !in Elems(pageIds);
      ElemsConcat(pageIds, [a.value]);
      assert Elems([a.value]) == {a.value};
      assert s0 - store.supply == (s0 - s1) + {a.value};
      pageIds := pageIds + [a.value];
    }
    ids := pageIds;
    InSupply(s0, ids);
    for i := 0 to numPages
      invariant Wrote(p0, store.pages, Elems(ids)) && ids == pageIds && store.supply == s0 - Elems(ids)
      invariant store.asked == old(store.asked) + numPages && store.refusals == old(store.refusals)
      invariant forall j | 0 <= j < i :: Filled(store.hash, store.pages, ids, value, j)
    {
      var next := if i + 1 < |pageIds| then pageIds[i + 1] else 0;
      ChunkBounds(|value|, i);
      ghost var p1 := store.pages;
      store.pages := store.pages[pageIds[i] := Stamp(store.hash, ChainPage(|value|, next, Chunk(value, i)))];
      assert pageIds[i] in Elems(ids);
      FilledMore(store.hash, p1, store.pages, ids, value, i);
    }
    AllFilled(store.hash, store.pages, ids, value);
    return Ok(pageIds[0]), ids;
  }

  lemma InSupply(s0: set<nat>, ids: seq<nat>)
    requires Elems(ids) <= s0 && forall id | id in s0 :: 0 < id < PAGE_ID_NONE
    ensures forall i | 0 <= i < |ids| :: 0 < ids[i] < PAGE_ID_NONE
  {
    forall i | 0 <= i < |ids| ensures 0 < ids[i] < PAGE_ID_NONE {
      assert ids[i] in Elems(ids);
    }
  }

  lemma ChunkBounds(length: nat, i: nat)
    requires i < PagesFor(length)
    ensures i * PAYLOAD < length && PagesFor(length) * PAYLOAD >= length && (PagesFor(length) - 1) * PAYLOAD < length
  {
  }

  /** Page `i` of the chain is in its final form. */
  ghost predicate Filled(hash: Hash, pages: map<nat, Image>, ids: seq<nat>, value: seq<byte>, i: nat) {
    && i < |ids| && |value| <= U64_MAX && i * PAYLOAD <= |value| && (forall j | 0 <= j < |ids| :: ids[j] <= U64_MAX)
    && ids[i] in pages
    && pages[ids[i]] == Stamp(hash, ChainPage(|value|, if i + 1 < |ids| then ids[i + 1] else 0, Chunk(value, i)))
  }

  lemma FilledMore(hash: Hash, p1: map<nat, Image>, p2: map<nat, Image>, ids: seq<nat>, value: seq<byte>, i: nat)
    requires Distinct(ids) && i < |ids| && ids[i] in p2 && p2 == p1[ids[i] := p2[ids[i]]]
    requires Filled(hash, p2, ids, value, i) && forall j | 0 <= j < i :: Filled(hash, p1, ids, value, j)
    ensures forall j | 0 <= j < i + 1 :: Filled(hash, p2, ids, value, j)
  {
    hide Stamp, ChainPage, Chunk;
    forall j | 0 <= j < i + 1 ensures Filled(hash, p2, ids, value, j) {
      if j < i {
        assert Filled(hash, p1, ids, value, j);
      }
    }
  }

  lemma AllFilled(hash: Hash, pages: map<nat, Image>, ids: seq<nat>, value: seq<byte>)
    requires 0 < |value| && |ids| == PagesFor(|value|) && forall j | 0 <= j < |ids| :: Filled(hash, pages, ids, value, j)
    requires forall j | 0 <= j < |ids| :: 0 < ids[j]
    ensures |ids| > 0 && Stores(pages, ids[0], ids, value) && AllStamped(hash, pages, Elems(ids))
  {
    hide Stamp, ChainPage, LengthAt, NextAt, Stamped, Gather, Chunk;
    forall i: nat | i < |ids|
      ensures LinkAt(pages, ids, i, 0)
      ensures LengthAt(pages[ids[i]]) == |value| && Stamped(hash, pages[ids[i]])
    {
      assert Filled(hash, pages, ids, value, i);
      ChainPageReads(hash, |value|, if i + 1 < |ids| then ids[i + 1] else 0, Chunk(value, i));
    }
    GatherFilled(hash, pages, ids, value, |ids|);
    ChunkBounds(|value|, |ids| - 1);
  }

  lemma {:induction false} GatherFilled(hash: Hash, pages: map<nat, Image>, ids: seq<nat>, value: seq<byte>, n: nat)
    requires n <= |ids| == PagesFor(|value|) && forall j | 0 <= j < |ids| :: Filled(hash, pages, ids, value, j)
    ensures (forall i | 0 <= i < n :: ids[i] in pages) && Gather(pages, ids, n, |value|) == value[..Min(n * PAYLOAD, |value|)]
  {
    hide Stamp, ChainPage, LengthAt, NextAt, Stamped;
    forall i | 0 <= i < n ensures ids[i] in pages {
      assert Filled(hash, pages, ids, value, i);
    }
    if n > 0 {
      GatherFilled(hash, pages, ids, value, n - 1);
      assert Filled(hash, pages, ids, value, n - 1);
      ChunkBounds(|value|, n - 1);
      ChainPageReads(hash, |value|, if n < |ids| then ids[n] else 0, Chunk(value, n - 1));
    }
  }

  // ----- walking -----

  /** The length a walk from `first` goes by: present, non-zero, and no more than the file could hold. */
  predicate GoodLength(pages: map<nat, Image>, first: nat, nextPageId: nat) {
    IsOverflow(pages, first) && 0 < LengthAt(pages[first]) <= SatMul(nextPageId, PAYLOAD)
  }

  /** The walk so far, and every complete chain agrees with it. */
  ghost predicate Walked(pages: map<nat, Image>, first: nat, ids: seq<nat>, current: nat) {
    && Linked(pages, ids, current) && (if ids == [] then current == first else ids[0] == first && current != 0)
    && (forall i | 0 < i < |ids| :: ids[i] != 0)
    && forall c | Chain(pages, first, c) :: |ids| < |c| && c[..|ids|] == ids && c[|ids|] == current
  }

  lemma WalkStep(pages: map<nat, Image>, first: nat, ids: seq<nat>, current: nat)
    requires Walked(pages, first, ids, current) && IsOverflow(pages, current)
    ensures NextAt(pages[current]) != 0 ==> Walked(pages, first, ids + [current], NextAt(pages[current]))
    ensures NextAt(pages[current]) == 0 ==> Chain(pages, first, ids + [current])
  {
    hide NextAt;
    var more := ids + [current];
    var next := NextAt(pages[current]);
    forall i: nat | i < |more| ensures LinkAt(pages, more, i, next) {
      if i < |ids| {
        assert LinkAt(pages, ids, i, current);
      }
    }
    if next != 0 {
      forall c | Chain(pages, first, c) ensures |more| < |c| && c[..|more|] == more && c[|more|] == next {
        assert LinkAt(pages, c, |ids|, 0);
        assert c[..|more|] == c[..|ids|] + [c[|ids|]];
      }
    }
  }

  /** A page that is missing or of another type is in no complete chain. */
  lemma WalkStuck(pages: map<nat, Image>, first: nat, ids: seq<nat>, current: nat)
    requires Walked(pages, first, ids, current) && !IsOverflow(pages, current)
    ensures forall c :: !Chain(pages, first, c)
  {
    forall c ensures !Chain(pages, first, c) {
      if Chain(pages, first, c) {
        WalkInside(pages, first, ids, current, c);
      }
    }
  }

  lemma WalkInside(pages: map<nat, Image>, first: nat, ids: seq<nat>, current: nat, c: seq<nat>)
    requires Walked(pages, first, ids, current) && Chain(pages, first, c)
    ensures IsOverflow(pages, current)
  {
    assert LinkAt(pages, c, |ids|, 0);
  }

  /**
   Read a value. It succeeds exactly when the pages form a complete chain of the right number of
   pages, and then returns that many bytes of their payload.
   */
  method Read(store: PageStore, nextPageId: nat, first: nat) returns (r: Result<seq<byte>>, ghost ids: seq<nat>)
    ensures r.Ok? ==> GoodLength(store.pages, first, nextPageId) && Chain(store.pages, first, ids) && Distinct(ids)
    ensures r.Ok? ==> |r.value| == LengthAt(store.pages[first]) && |ids| == PagesFor(|r.value|)
    ensures r.Ok? ==> (forall i | 0 <= i < |ids| :: ids[i] in store.pages) && r.value == Gather(store.pages, ids, |ids|, |r.value|)
    ensures r.Err? ==> forall c | Chain(store.pages, first, c) && GoodLength(store.pages, first, nextPageId) ::
                         |c| != PagesFor(LengthAt(store.pages[first]))
  {
    hide LengthAt, NextAt, Gather, Linked, Chain, Walked;
    ids := [];
    if first !in store.pages {
      return Err(MissingPage(first)), ids;
    }
    if store.pages[first][0] != TYPE_OVERFLOW {
      return Err(CorruptPage(first)), ids;
    }
    var total := LengthAt(store.pages[first]);
    if total == 0 {
      return Err(CorruptPage(first)), ids;
    }
    if total > SatMul(nextPageId, PAYLOAD) {
      return Err(CorruptPage(first)), ids;
    }
    var maxPages := PagesFor(total);
    var result: seq<byte> := [];
    var current: nat := first;
    var visited := 0;
    WalkStart(store.pages, first);
    GatherNone(store.pages, total);
    while true
      invariant visited == |ids| <= maxPages && Walked(store.pages, first, ids, current)
      invariant (forall i | 0 <= i < |ids| :: ids[i] in store.pages) && result == Gather(store.pages, ids, |ids|, total)
      invariant |result| == Min(visited * PAYLOAD, total)
      decreases maxPages - visited
    {
      if visited >= maxPages {
        WalkLong(store.pages, first, ids, current);
        return Err(CorruptPage(first)), ids;
      }
      visited := visited + 1;
      if current !in store.pages {
        WalkStuck(store.pages, first, ids, current);
        return Err(MissingPage(current)), ids;
      }
      var buf := store.pages[current];
      if buf[0] != TYPE_OVERFLOW {
        WalkStuck(store.pages, first, ids, current);
        return Err(CorruptPage(current)), ids;
      }
      var next := NextAt(buf);
      ChunkBounds(total, visited - 1);
      var chunkLen := Min(total - |result|, PAYLOAD);
      WalkStep(store.pages, first, ids, current);
      GatherMore(store.pages, ids, current, total);
      result := result + buf[HEADER_END..HEADER_END + chunkLen];
      ids := ids + [current];
      if next == 0 {
        break;
      }
      current := next;
    }
    ChainDistinct(store.pages, first, ids);
    WalkDone(store.pages, first, ids);
    if |result| != total {
      return Err(CorruptPage(first)), ids;
    }
    EnoughPages(total, |ids|);
    return Ok(result), ids;
  }

  lemma WalkStart(pages: map<nat, Image>, first: nat)
    ensures Walked(pages, first, [], first)
  {
  }

  lemma WalkLong(pages: map<nat, Image>, first: nat, ids: seq<nat>, current: nat)
    requires Walked(pages, first, ids, current)
    ensures forall c | Chain(pages, first, c) :: |c| > |ids|
  {
  }

  lemma WalkDone(pages: map<nat, Image>, first: nat, ids: seq<nat>)
    requires Chain(pages, first, ids)
    ensures forall c | Chain(pages, first, c) :: c == ids
  {
    forall c | Chain(pages, first, c) ensures c == ids {
      ChainUnique(pages, first, c, ids);
    }
  }

  lemma GatherNone(pages: map<nat, Image>, total: nat)
    ensures Gather(pages, [], 0, total) == []
  {
  }

  lemma GatherMore(pages: map<nat, Image>, ids: seq<nat>, current: nat, total: nat)
    requires (forall i | 0 <= i < |ids| :: ids[i] in pages) && current in pages && |ids| * PAYLOAD < total
    ensures Gather(pages, ids + [current], |ids| + 1, total)
         == Gather(pages, ids, |ids|, total) + pages[current][HEADER_END..HEADER_END + Min(total - |ids| * PAYLOAD, PAYLOAD)]
  {
    var more := ids + [current];
    assert more[..|ids|] == ids[..|ids|];
    GatherPrefix(pages, more, ids, |ids|, total);
  }

  lemma EnoughPages(total: nat, n: nat)
    requires n <= PagesFor(total) && Min(n * PAYLOAD, total) == total && total > 0
    ensures n == PagesFor(total)
  {
  }

  /** The pages of a chain, for freeing: the complete chain from `first` if it is no longer than the length allows. */
  method CollectChainPages(store: PageStore, nextPageId: nat, first: nat) returns (r: Result<seq<nat>>)
    ensures r.Ok? ==> GoodLength(store.pages, first, nextPageId) && Chain(store.pages, first, r.value) && Distinct(r.value)
    ensures r.Ok? ==> |r.value| <= PagesFor(LengthAt(store.pages[first]))
    ensures forall c | Chain(store.pages, first, c) && GoodLength(store.pages, first, nextPageId)
                       && |c| <= PagesFor(LengthAt(store.pages[first])) :: r == Ok(c)
  {
    hide LengthAt, NextAt, Linked, Chain, Walked;
    if first !in store.pages {
      return Err(MissingPage(first));
    }
    if store.pages[first][0] != TYPE_OVERFLOW {
      return Err(CorruptPage(first));
    }
    var total := LengthAt(store.pages[first]);
    if total == 0 {
      return Err(CorruptPage(first));
    }
    if total > SatMul(nextPageId, PAYLOAD) {
      return Err(CorruptPage(first));
    }
    var maxPages := PagesFor(total);
    var freed: seq<nat> := [];
    var current: nat := first;
    WalkStart(store.pages, first);
    while true
      invariant |freed| <= maxPages && Walked(store.pages, first, freed, current)
      decreases maxPages - |freed|
    {
      if |freed| >= maxPages {
        WalkLong(store.pages, first, freed, current);
        return Err(CorruptPage(first));
      }
      if current !in store.pages {
        WalkStuck(store.pages, first, freed, current);
        return Err(MissingPage(current));
      }
      if store.pages[current][0] != TYPE_OVERFLOW {
        WalkStuck(store.pages, first, freed, current);
        return Err(CorruptPage(current));
      }
      var next := NextAt(store.pages[current]);
      WalkStep(store.pages, first, freed, current);
      freed := freed + [current];
      if next == 0 {
        break;
      }
      current := next;
    }
    ChainDistinct(store.pages, first, freed);
    WalkDone(store.pages, first, freed);
    return Ok(freed);
  }

  // ----- round trip -----

  /** Distinct ids below `n` are at most `n` many. */
  lemma {:induction false} Pigeonhole(ids: set<nat>, n: nat)
    requires forall id | id in ids :: id < n
    ensures |ids| <= n
  {
    if n == 0 {
      assert ids == {};
    } else {
      Pigeonhole(ids - {n - 1}, n - 1);
    }
  }

  lemma {:induction false} DistinctSize(ids: seq<nat>)
    requires Distinct(ids)
    ensures |Elems(ids)| == |ids|
  {
    if ids == [] {
      assert Elems(ids) == {};
    } else {
      var n := |ids| - 1;
      DistinctSize(ids[..n]);
      assert ids == ids[..n] + [ids[n]];
      assert Elems(ids) == Elems(ids[..n]) + {ids[n]};
      assert ids[n] !in Elems(ids[..n]);
    }
  }

  /** A written value passes the length ceiling of a file whose next page id lies past its pages. */
  lemma WithinCeiling(pages: map<nat, Image>, first: nat, ids: seq<nat>, value: seq<byte>, nextPageId: nat)
    requires Stores(pages, first, ids, value) && 0 < |value| <= U64_MAX && forall id | id in ids :: id < nextPageId
    ensures GoodLength(pages, first, nextPageId)
  {
    hide LengthAt, NextAt, Gather;
    ChainDistinct(pages, first, ids);
    DistinctSize(ids);
    Pigeonhole(Elems(ids), nextPageId);
    ChunkBounds(|value|, 0);
    assert LinkAt(pages, ids, 0, 0);
    assert |value| <= |ids| * PAYLOAD <= nextPageId * PAYLOAD;
  }

  /** What is written reads back, and its pages can be collected. */
  method RoundTrip(store: PageStore, value: seq<byte>, nextPageId: nat) returns (w: Result<nat>, r: Result<seq<byte>>, pages: Result<seq<nat>>)
    requires 0 < |value| <= U64_MAX && forall id | id in store.supply :: 0 < id < PAGE_ID_NONE && id < nextPageId
    modifies store
    ensures store.refusals == old(store.refusals) + if w.Err? then 1 else 0
    ensures w.Ok? ==> r == Ok(value)
    ensures w.Ok? ==> pages.Ok? && Elems(pages.value) == old(store.supply) - store.supply && Distinct(pages.value)
  {
    hide LengthAt, NextAt, Gather, Linked, Chain;
    ghost var ids, ids';
    w, ids := Write(store, value);
    if w.Err? {
      return w, Err(w.error), Err(w.error);
    }
    assert forall id | id in ids :: id in Elems(ids);
    WithinCeiling(store.pages, w.value, ids, value, nextPageId);
    r, ids' := Read(store, nextPageId, w.value);
    WalkDone(store.pages, w.value, ids);
    pages := CollectChainPages(store, nextPageId, w.value);
  }
}
