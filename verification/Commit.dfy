/**
 Commit and recovery. A commit flushes its pages, then writes one superblock slot, number
 `counter % N`. Opening takes the valid slot with the highest counter. A torn slot write leaves a
 slot that does not validate.
 */
module Commit {
  import opened Pages
  import opened RadixTree
  import opened Superblock

  type Slots = seq<Option<Superblock>>

  /** How a commit's slot write ended: on disk, or torn by a crash. */
  datatype Attempt = Done(roots: Roots) | Torn

  // ----- which slot is the database -----

  ghost predicate Wins(s: Slots, w: nat) {
    && w < |s| && s[w].Some?
    && forall j: nat | j < |s| && s[j].Some? ::
         s[j].value.txnCounter <= s[w].value.txnCounter && (s[j].value.txnCounter == s[w].value.txnCounter ==> j <= w)
  }

  ghost predicate NoneValid(s: Slots) {
    forall j: nat | j < |s| :: s[j].None?
  }

  ghost function SlotsOf(hash: Hash, pages: seq<Image>): Slots {
    seq(|pages|, i requires 0 <= i < |pages| => Deserialize(hash, pages[i]))
  }

  /** The valid candidate with the highest counter, the last one on a tie; none if none validates. */
  method Select(hash: Hash, candidates: seq<Image>) returns (r: Option<(nat, Superblock)>)
    ensures r.Some? ==> Wins(SlotsOf(hash, candidates), r.value.0) && SlotsOf(hash, candidates)[r.value.0] == Some(r.value.1)
    ensures r.Some? ==> Stamp(hash, candidates[r.value.0]) == candidates[r.value.0] && candidates[r.value.0][..HEAD_SIZE] == Head(r.value.1)
    ensures r.None? ==> NoneValid(SlotsOf(hash, candidates))
  {
    hide Deserialize, Stamp, Head;
    r := None;
    for i := 0 to |candidates|
      invariant r.Some? ==> Wins(SlotsOf(hash, candidates[..i]), r.value.0) && SlotsOf(hash, candidates[..i])[r.value.0] == Some(r.value.1)
      invariant r.None? ==> NoneValid(SlotsOf(hash, candidates[..i]))
    {
      assert SlotsOf(hash, candidates[..i + 1]) == SlotsOf(hash, candidates[..i]) + [Deserialize(hash, candidates[i])];
      var sb := Deserialize(hash, candidates[i]);
      if sb.Some? && (r.None? || sb.value.txnCounter >= r.value.1.txnCounter) {
        r := Some((i, sb.value));
      }
    }
    assert candidates[..|candidates|] == candidates;
    if r.Some? {
      ReadsOnly(hash, candidates[r.value.0]);
    }
  }

  /** A slot whose checksum does not verify is no candidate, whatever else it holds. */
  lemma TornSlot(hash: Hash, pages: seq<Image>, i: nat)
    requires i < |pages| && Stamp(hash, pages[i]) != pages[i]
    ensures SlotsOf(hash, pages)[i].None? && !Wins(SlotsOf(hash, pages), i)
  {
    hide Deserialize, Stamp;
    if Deserialize(hash, pages[i]).Some? {
      ReadsOnly(hash, pages[i]);
    }
  }

  lemma OneWinner(s: Slots, v: nat, w: nat)
    requires Wins(s, v) && Wins(s, w)
    ensures v == w
  {
  }

  // ----- runs of commits, whole or torn -----

  /** What a commit from the state at slot `w` leaves behind. */
  ghost function Attempted(s: Slots, w: nat, a: Attempt): Slots
    requires |s| > 0 && w < |s| && s[w].Some? && s[w].value.txnCounter < MAX_TXN_COUNTER
  {
    var counter := s[w].value.txnCounter + 1;
    s[counter % |s| := if a.Torn? then None else Some(s[w].value.(txnCounter := counter, roots := a.roots))]
  }

  /** A run: each attempt starts from what opening the file after the one before would select. */
  ghost predicate Outcome(s: Slots, attempts: seq<Attempt>, t: Slots)
    requires |s| > 0
    decreases |attempts|
  {
    if attempts == [] then t == s
    else if NoneValid(s) then t == s
    else exists w: nat :: Wins(s, w) && s[w].value.txnCounter < MAX_TXN_COUNTER && Outcome(Attempted(s, w, attempts[0]), attempts[1..], t)
  }

  lemma {:induction false} HasWinner(s: Slots) returns (w: nat)
    requires !NoneValid(s)
    ensures Wins(s, w)
  {
    var n := |s| - 1;
    if NoneValid(s[..n]) {
      w := n;
    } else {
      w := HasWinner(s[..n]);
      if s[n].Some? && s[n].value.txnCounter >= s[w].value.txnCounter {
        w := n;
      }
    }
  }

  /** Every sequence of attempts has an outcome while the counter range lasts. */
  lemma {:induction false} RunsEnd(s: Slots, attempts: seq<Attempt>) returns (t: Slots)
    requires |s| > 0 && forall j: nat | j < |s| && s[j].Some? :: s[j].value.txnCounter + |attempts| <= MAX_TXN_COUNTER
    ensures Outcome(s, attempts, t)
    decreases |attempts|
  {
    if attempts == [] || NoneValid(s) {
      t := s;
    } else {
      var w := HasWinner(s);
      t := RunsEnd(Attempted(s, w, attempts[0]), attempts[1..]);
    }
  }

  /** The roots of the last commit that went through. */
  ghost function Last(roots: Roots, attempts: seq<Attempt>): Roots
    decreases |attempts|
  {
    if attempts == [] then roots else Last(if attempts[0].Done? then attempts[0].roots else roots, attempts[1..])
  }

  ghost predicate Opens(s: Slots, roots: Roots) {
    exists w: nat :: Wins(s, w) && s[w].value.roots == roots
  }

  /** The winner sits where its counter says, so the next write goes elsewhere. */
  ghost predicate Settled(s: Slots, w: nat) {
    Wins(s, w) && s[w].value.txnCounter % |s| == w
  }

  /** If the slot the next commit writes to were lost, the others would still open at the same roots. */
  ghost predicate Guarded(s: Slots, w: nat) {
    Wins(s, w) && Opens(s[(s[w].value.txnCounter + 1) % |s| := None], s[w].value.roots)
  }

  /** The file opens at `roots`, and would do so after one more torn commit. */
  ghost predicate Safe(s: Slots, roots: Roots) {
    exists w: nat :: Guarded(s, w) && s[w].value.roots == roots
  }

  lemma SettledSafe(s: Slots, w: nat)
    requires |s| >= 2 && Settled(s, w)
    ensures Guarded(s, w) && Safe(s, s[w].value.roots)
  {
    NextSlotDiffers(s[w].value.txnCounter, |s|);
    assert Wins(s[(s[w].value.txnCounter + 1) % |s| := None], w);
  }

  lemma NextSlotDiffers(c: nat, n: nat)
    requires n >= 2
    ensures (c + 1) % n != c % n
  {
    var q, r := c / n, c % n;
    assert c == q * n + r;
    if r + 1 < n {
      DivUnique(c + 1, n, q, r + 1);
    } else {
      DivUnique(c + 1, n, q + 1, 0);
    }
  }

  lemma SettledStep(s: Slots, w: nat, a: Attempt)
    requires |s| >= 2 && Settled(s, w) && s[w].value.txnCounter < MAX_TXN_COUNTER
    ensures a.Torn? ==> Settled(Attempted(s, w, a), w) && Attempted(s, w, a)[w] == s[w]
    ensures a.Done? ==> Settled(Attempted(s, w, a), (s[w].value.txnCounter + 1) % |s|)
    ensures a.Done? ==> Attempted(s, w, a)[(s[w].value.txnCounter + 1) % |s|].value.roots == a.roots
  {
    NextSlotDiffers(s[w].value.txnCounter, |s|);
  }

  /**
   From any settled state, over any sequence of commits of which any may be torn, the file always
   opens, opens at the last commit that went through, and would survive a further torn one.
   */
  lemma {:induction false} CommitsDurable(s: Slots, w: nat, attempts: seq<Attempt>, t: Slots)
    requires |s| >= 2 && Settled(s, w) && Outcome(s, attempts, t)
    ensures Safe(t, Last(s[w].value.roots, attempts))
    decreases |attempts|
  {
    hide Safe, Guarded, Opens;
    if attempts == [] {
      SettledSafe(s, w);
    } else {
      assert !NoneValid(s);
      var v: nat :| Wins(s, v) && s[v].value.txnCounter < MAX_TXN_COUNTER && Outcome(Attempted(s, v, attempts[0]), attempts[1..], t);
      OneWinner(s, v, w);
      SettledStep(s, w, attempts[0]);
      if attempts[0].Torn? {
        CommitsDurable(Attempted(s, w, attempts[0]), w, attempts[1..], t);
      } else {
        CommitsDurable(Attempted(s, w, attempts[0]), (s[w].value.txnCounter + 1) % |s|, attempts[1..], t);
      }
    }
  }

  // ----- a database that has only been created -----

  /** Creation seeds slot `i` with counter N - 1 - i, every slot naming the same empty state. */
  ghost function Created(n: nat, sb: Superblock): Slots
    requires 2 <= n <= MAX_SUPERBLOCKS
  {
    seq(n, i requires 0 <= i < n => Some(sb.(txnCounter := n - 1 - i)))
  }

  /** After a torn first commit: slot 1 is the winner, with counter N - 2. */
  ghost predicate Limbo(s: Slots, sb: Superblock) {
    3 <= |s| <= MAX_SUPERBLOCKS && Wins(s, 1) && s[1] == Some(sb.(txnCounter := |s| - 2))
  }

  lemma LimboSafe(s: Slots, sb: Superblock)
    requires Limbo(s, sb)
    ensures Guarded(s, 1) && Safe(s, sb.roots)
  {
    assert (|s| - 1) % |s| == |s| - 1;
    assert Wins(s[|s| - 1 := None], 1);
  }

  lemma LimboStep(s: Slots, sb: Superblock, a: Attempt)
    requires Limbo(s, sb)
    ensures a.Torn? ==> Limbo(Attempted(s, 1, a), sb)
    ensures a.Done? ==> Settled(Attempted(s, 1, a), |s| - 1) && Attempted(s, 1, a)[|s| - 1].value.roots == a.roots
  {
    assert (|s| - 1) % |s| == |s| - 1;
  }

  lemma {:induction false} LimboDurable(s: Slots, sb: Superblock, attempts: seq<Attempt>, t: Slots)
    requires Limbo(s, sb) && Outcome(s, attempts, t)
    ensures Safe(t, Last(sb.roots, attempts))
    decreases |attempts|
  {
    hide Safe, Guarded, Opens;
    if attempts == [] {
      LimboSafe(s, sb);
    } else {
      assert !NoneValid(s);
      var v: nat :| Wins(s, v) && s[v].value.txnCounter < MAX_TXN_COUNTER && Outcome(Attempted(s, v, attempts[0]), attempts[1..], t);
      OneWinner(s, v, 1);
      LimboStep(s, sb, attempts[0]);
      if attempts[0].Torn? {
        LimboDurable(Attempted(s, 1, attempts[0]), sb, attempts[1..], t);
      } else {
        CommitsDurable(Attempted(s, 1, attempts[0]), |s| - 1, attempts[1..], t);
      }
    }
  }

  /** The first commit overwrites the winner, but slot 1 names the same state. */
  lemma CreatedSafe(n: nat, sb: Superblock)
    requires 2 <= n <= MAX_SUPERBLOCKS
    ensures Guarded(Created(n, sb), 0) && Safe(Created(n, sb), sb.roots)
  {
    assert n % n == 0;
    assert Wins(Created(n, sb)[0 := None], 1);
  }

  lemma FirstCommit(n: nat, sb: Superblock, a: Attempt)
    requires 2 <= n <= MAX_SUPERBLOCKS
    ensures Wins(Created(n, sb), 0)
    ensures var s := Attempted(Created(n, sb), 0, a);
            && (a.Done? ==> Settled(s, 0) && s[0].value.roots == a.roots)
            && (a.Torn? && n >= 3 ==> Limbo(s, sb))
            && (a.Torn? && n == 2 ==> s == [None, Some(sb.(txnCounter := 0))])
  {
    assert n % n == 0;
  }

  /** The second commit on two slots after a torn first one goes to the only slot left. */
  lemma SecondCommit(sb: Superblock, a: Attempt)
    ensures var s: Slots := [None, Some(sb.(txnCounter := 0))];
            && Wins(s, 1)
            && (a.Done? ==> Settled(Attempted(s, 1, a), 1) && Attempted(s, 1, a)[1].value.roots == a.roots)
            && (a.Torn? ==> NoneValid(Attempted(s, 1, a)))
  {
    assert 1 % 2 == 1;
  }

  /** Two slots after a torn first commit: one more torn commit and nothing validates. */
  lemma Exposed(sb: Superblock, roots: Roots)
    ensures !Safe([None, Some(sb.(txnCounter := 0))], roots)
  {
    var s: Slots := [None, Some(sb.(txnCounter := 0))];
    assert 1 % 2 == 1;
    forall w: nat ensures !Guarded(s, w) {
      if Wins(s, w) {
        assert NoneValid(s[1 := None]);
      }
    }
  }

  /**
   A database that has only been created opens at its last whole commit after every run of commits,
   except in one case: it has two slots and its first two commits are both torn. Then no slot is
   left that validates. It would survive a further torn commit except, with two slots, as long as
   the first commit was torn and the second has not gone through.
   */
  lemma CreatedDurable(n: nat, sb: Superblock, attempts: seq<Attempt>, t: Slots)
    requires 2 <= n <= MAX_SUPERBLOCKS && Outcome(Created(n, sb), attempts, t)
    ensures Opens(t, Last(sb.roots, attempts))
       <==> n >= 3 || !(|attempts| >= 2 && attempts[0].Torn? && attempts[1].Torn?)
    ensures Safe(t, Last(sb.roots, attempts))
       <==> n >= 3 || attempts == [] || attempts[0].Done? || (|attempts| >= 2 && attempts[1].Done?)
  {
    var s := Created(n, sb);
    if attempts == [] {
      CreatedSafe(n, sb);
    } else {
      FirstCommit(n, sb, attempts[0]);
      assert !NoneValid(s);
      var v: nat :| Wins(s, v) && s[v].value.txnCounter < MAX_TXN_COUNTER && Outcome(Attempted(s, v, attempts[0]), attempts[1..], t);
      OneWinner(s, v, 0);
      var s1 := Attempted(s, 0, attempts[0]);
      if attempts[0].Done? {
        CommitsDurable(s1, 0, attempts[1..], t);
      } else if n >= 3 {
        LimboDurable(s1, sb, attempts[1..], t);
      } else {
        TwoSlots(sb, attempts[1..], t);
      }
    }
  }

  lemma TwoSlots(sb: Superblock, attempts: seq<Attempt>, t: Slots)
    requires Outcome([None, Some(sb.(txnCounter := 0))], attempts, t)
    ensures Opens(t, Last(sb.roots, attempts)) <==> !(|attempts| >= 1 && attempts[0].Torn?)
    ensures Safe(t, Last(sb.roots, attempts)) <==> |attempts| >= 1 && attempts[0].Done?
  {
    var s: Slots := [None, Some(sb.(txnCounter := 0))];
    if attempts == [] {
      SecondCommit(sb, Torn);
      Exposed(sb, sb.roots);
    } else {
      SecondCommit(sb, attempts[0]);
      assert !NoneValid(s);
      var v: nat :| Wins(s, v) && s[v].value.txnCounter < MAX_TXN_COUNTER && Outcome(Attempted(s, v, attempts[0]), attempts[1..], t);
      OneWinner(s, v, 1);
      if attempts[0].Done? {
        CommitsDurable(Attempted(s, 1, attempts[0]), 1, attempts[1..], t);
      } else {
        Stuck(Attempted(s, 1, attempts[0]), attempts[1..], t, Last(sb.roots, attempts));
      }
    }
  }

  lemma Stuck(s: Slots, attempts: seq<Attempt>, t: Slots, roots: Roots)
    requires |s| > 0 && NoneValid(s) && Outcome(s, attempts, t)
    ensures !Opens(t, roots)
  {
    assert t == s;
  }

  /** Two slots, two torn commits: the file no longer opens, though nothing was ever committed and lost. */
  lemma TwoTornCommits(sb: Superblock)
    ensures exists t: Slots :: Outcome(Created(2, sb), [Torn, Torn], t) && NoneValid(t)
  {
    FirstCommit(2, sb, Torn);
    SecondCommit(sb, Torn);
    var s := Created(2, sb);
    var s1 := Attempted(s, 0, Torn);
    var s2 := Attempted(s1, 1, Torn);
    assert [Torn, Torn][1..] == [Torn] && [Torn][1..] == [];
    assert Outcome(s2, [], s2);
    assert Outcome(s1, [Torn], s2);
    assert Outcome(s, [Torn, Torn], s2);
  }

  // ----- a crash anywhere inside a commit -----

  /** No page after the slots passes for a superblock within the range that opening probes. */
  ghost predicate NoImpostor(hash: Hash, disk: seq<Image>, n: nat) {
    forall q: nat | n <= q < Min(MAX_SUPERBLOCKS, |disk|) :: Deserialize(hash, disk[q]).None?
  }

  /**
   A disk a crash may leave. `dirty` are the pages the transaction wrote, `after` their final
   contents, `k` the slot its superblock goes to. Until the slot write the dirty pages may hold
   anything; once the slot holds the new superblock they hold their final contents, because the
   flush before it was synced. A torn slot does not validate.
   */
  ghost predicate CrashDisk(hash: Hash, before: seq<Image>, disk: seq<Image>, n: nat, k: nat, sb: Superblock,
                            dirty: set<nat>, after: map<nat, Image>)
  {
    && n <= |before| <= |disk| && k < n
    && (forall q: nat | q < |before| && q != k && q !in dirty :: disk[q] == before[q])
    && NoImpostor(hash, disk, n)
    && (|| disk[k] == before[k]
        || Deserialize(hash, disk[k]).None?
        || (disk[k] == Serialize(hash, sb) && forall q | q in dirty :: q < |disk| && q in after && disk[q] == after[q]))
  }

  /** The candidates opening probes after the crash: the old slots, except the one being written. */
  lemma CrashSlots(hash: Hash, before: seq<Image>, disk: seq<Image>, n: nat, k: nat, sb: Superblock, dirty: set<nat>, after: map<nat, Image>)
    requires CrashDisk(hash, before, disk, n, k, sb, dirty, after) && n <= MAX_SUPERBLOCKS && forall q | q in dirty :: q >= n
    ensures var cand := SlotsOf(hash, disk[..Min(MAX_SUPERBLOCKS, |disk|)]);
            && n <= |cand| && cand[k] == Deserialize(hash, disk[k])
            && (forall j: nat | j < n && j != k :: cand[j] == SlotsOf(hash, before[..n])[j])
            && (forall j: nat | n <= j < |cand| :: cand[j].None?)
  {
    hide Deserialize, Serialize;
  }

  /**
   After a crash anywhere in a commit the file opens; it opens at the old roots or at the new
   superblock; and a commit whose slot was written is never lost.
   */
  lemma CrashSelects(hash: Hash, before: seq<Image>, disk: seq<Image>, n: nat, w: nat, sb: Superblock, dirty: set<nat>, after: map<nat, Image>)
    returns (v: nat)
    requires 2 <= n <= MAX_SUPERBLOCKS && n <= |before| && Guarded(SlotsOf(hash, before[..n]), w)
    requires var cur := SlotsOf(hash, before[..n])[w].value;
             && cur.txnCounter < MAX_TXN_COUNTER && sb.txnCounter == cur.txnCounter + 1 && Writable(sb)
             && CrashDisk(hash, before, disk, n, sb.txnCounter % n, sb, dirty, after)
    requires forall q | q in dirty :: q >= n
    ensures Wins(SlotsOf(hash, disk[..Min(MAX_SUPERBLOCKS, |disk|)]), v) && v < n && Deserialize(hash, disk[v]).Some?
    ensures var cur, chosen := SlotsOf(hash, before[..n])[w].value, Deserialize(hash, disk[v]).value;
            chosen.roots == cur.roots || (v == sb.txnCounter % n && chosen == sb && disk[v] == Serialize(hash, sb))
    ensures disk[sb.txnCounter % n] == before[sb.txnCounter % n] ==> v == w
    ensures disk[sb.txnCounter % n] == Serialize(hash, sb) ==> v == sb.txnCounter % n && Deserialize(hash, disk[v]) == Some(sb)
  {
    hide Deserialize, Serialize, Writable, SlotsOf, Guarded, Opens, Wins, CrashDisk;
    var s, k := SlotsOf(hash, before[..n]), sb.txnCounter % n;
    Unguarded(s, w);
    CrashSlots(hash, before, disk, n, k, sb, dirty, after);
    CrashSlot(hash, before, disk, n, k, sb, dirty, after);
    RoundTrip(hash, sb);
    SlotAt(hash, before, n, k);
    v := Selected(s, w, SlotsOf(hash, disk[..Min(MAX_SUPERBLOCKS, |disk|)]), sb);
    SlotAt(hash, disk, Min(MAX_SUPERBLOCKS, |disk|), v);
  }

  lemma CrashSlot(hash: Hash, before: seq<Image>, disk: seq<Image>, n: nat, k: nat, sb: Superblock, dirty: set<nat>, after: map<nat, Image>)
    requires CrashDisk(hash, before, disk, n, k, sb, dirty, after)
    ensures k < n <= |before| <= |disk|
    ensures disk[k] == before[k] || Deserialize(hash, disk[k]).None? || disk[k] == Serialize(hash, sb)
  {
    hide Deserialize, Serialize;
  }

  /** Selection among slots of which one was rewritten, torn or left alone. */
  lemma Selected(s: Slots, w: nat, cand: Slots, sb: Superblock) returns (v: nat)
    requires Guarded(s, w) && Wins(s, w) && sb.txnCounter == s[w].value.txnCounter + 1 && |s| <= |cand|
    requires forall j: nat | j < |s| && j != sb.txnCounter % |s| :: cand[j] == s[j]
    requires forall j: nat | |s| <= j < |cand| :: cand[j].None?
    requires cand[sb.txnCounter % |s|] in {s[sb.txnCounter % |s|], None, Some(sb)}
    ensures Wins(cand, v) && v < |s| && cand[v].Some?
    ensures cand[v].value.roots == s[w].value.roots || (v == sb.txnCounter % |s| && cand[v] == Some(sb))
    ensures cand[sb.txnCounter % |s|] == s[sb.txnCounter % |s|] ==> v == w
    ensures cand[sb.txnCounter % |s|] == Some(sb) ==> v == sb.txnCounter % |s|
  {
    hide Guarded, Opens;
    var k := sb.txnCounter % |s|;
    if cand[k] == Some(sb) {
      v := k;
    } else if cand[k] == s[k] {
      v := w;
    } else {
      v := Fallback(s, w);
      assert forall j: nat | j < |s| :: s[k := None][j] == cand[j];
    }
  }

  lemma SlotAt(hash: Hash, pages: seq<Image>, n: nat, j: nat)
    requires j < n <= |pages|
    ensures |SlotsOf(hash, pages[..n])| == n && SlotsOf(hash, pages[..n])[j] == Deserialize(hash, pages[j])
  {
  }

  lemma Unguarded(s: Slots, w: nat)
    requires Guarded(s, w)
    ensures Wins(s, w)
  {
  }

  lemma Fallback(s: Slots, w: nat) returns (f: nat)
    requires Guarded(s, w)
    ensures Wins(s, w) && f < |s| && f != (s[w].value.txnCounter + 1) % |s|
    ensures Wins(s[(s[w].value.txnCounter + 1) % |s| := None], f) && s[f].Some? && s[f].value.roots == s[w].value.roots
  {
    f :| Wins(s[(s[w].value.txnCounter + 1) % |s| := None], f)
         && s[(s[w].value.txnCounter + 1) % |s| := None][f].value.roots == s[w].value.roots;
  }
}
