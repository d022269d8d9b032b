/**
 What the pass of `rehash.c` over one bucket means for the directory: kept links stay, new links
 lead to their files, and when the removal of a stale link takes a new one away again.
 */
module RehashResult {
  import opened Common
  import opened RehashTable
  import opened RehashNumbers
  import opened RehashLinks

  /** The entry's link is in the directory, under its number. */
  predicate LinkedNow(entries: seq<HEntry>, i: nat, n: nat, used: set<nat>, links: map<nat, string>)
    requires i < |entries|
  {
    var id := LinkOf(entries, i, n, used);
    id.Some? && id.value in links && links[id.value] == entries[i].filename
  }

  predicate SameLink(was: map<nat, string>, now: map<nat, string>, id: nat) {
    (id in was <==> id in now) && (id in was ==> was[id] == now[id])
  }

  /** One of the entries between `i` and `m` has a stale link under the number that `i` got. */
  predicate RemovedLater(entries: seq<HEntry>, i: nat, m: nat, n: nat, used: set<nat>, removeLinks: bool)
    requires i < m <= |entries|
  {
    removeLinks && exists j :: i < j < m && RemovesNumber(entries, i, j, n, used)
  }

  predicate RemovesNumber(entries: seq<HEntry>, i: nat, j: nat, n: nat, used: set<nat>)
    requires i < |entries| && j < |entries|
  {
    Stale(entries[j], n) && LinkOf(entries, i, n, used) == Some(entries[j].oldId as nat)
  }

  /** The entry `i` replaces or removes the link `id`. */
  predicate Concerns(entries: seq<HEntry>, i: nat, n: nat, used: set<nat>, removeLinks: bool, id: nat)
    requires i < |entries|
  {
    || (Placed(entries[i], n) && LinkOf(entries, i, n, used) == Some(id))
    || (Stale(entries[i], n) && removeLinks && entries[i].oldId == id)
  }

  /** What one entry does to the link `id`. */
  lemma StepEffect(entries: seq<HEntry>, i: nat, n: nat, used: set<nat>, removeLinks: bool, refused: Refusals,
                   links: map<nat, string>, id: nat)
    requires i < |entries|
    ensures var (now, errs) := LinkStep(entries, i, n, used, removeLinks, refused, links);
      && (Placed(entries[i], n) && LinkOf(entries, i, n, used) == Some(id) && errs == 0 ==>
            id in now && now[id] == entries[i].filename)
      && (Stale(entries[i], n) && removeLinks && entries[i].oldId == id && errs == 0 ==> id !in now)
      && (!Concerns(entries, i, n, used, removeLinks, id) ==> SameLink(links, now, id))
  {
  }

  /** Entries that get new links get different numbers. */
  lemma PlacedDiffer(entries: seq<HEntry>, i: nat, j: nat, n: nat, used: set<nat>)
    requires i < |entries| && j < |entries| && i != j && Placed(entries[i], n) && Placed(entries[j], n)
    requires LinkOf(entries, i, n, used).Some? && LinkOf(entries, j, n, used).Some?
    ensures LinkOf(entries, i, n, used) != LinkOf(entries, j, n, used)
  {
    if i < j {
      PlacedMonotone(entries, i, j, n);
    } else {
      PlacedMonotone(entries, j, i, n);
    }
  }

  /** After an error-free pass a new link is there exactly unless a later stale entry had its number. */
  lemma {:induction false} LinkSurvives(
    entries: seq<HEntry>, i: nat, m: nat, n: nat, used: set<nat>, removeLinks: bool, refused: Refusals,
    was: map<nat, string>)
    requires i < m <= |entries| && Enough(entries, n, used) && Placed(entries[i], n)
    requires LinksAfter(entries, m, n, used, removeLinks, refused, was).1 == 0
    ensures LinkedNow(entries, i, n, used, LinksAfter(entries, m, n, used, removeLinks, refused, was).0) <==>
      !RemovedLater(entries, i, m, n, used, removeLinks)
  {
    PlacedNumber(entries, i, n, used);
    var id := LinkOf(entries, i, n, used).value;
    var before := LinksAfter(entries, m - 1, n, used, removeLinks, refused, was).0;
    AfterNext(entries, m - 1, n, used, removeLinks, refused, was);
    StepEffect(entries, m - 1, n, used, removeLinks, refused, before, id);
    if i < m - 1 {
      LinkSurvives(entries, i, m - 1, n, used, removeLinks, refused, was);
      if Placed(entries[m - 1], n) {
        PlacedNumber(entries, m - 1, n, used);
        PlacedDiffer(entries, i, m - 1, n, used);
      }
      RemovedNext(entries, i, m - 1, n, used, removeLinks);
    }
  }

  lemma RemovedNext(entries: seq<HEntry>, i: nat, m: nat, n: nat, used: set<nat>, removeLinks: bool)
    requires i < m < |entries|
    ensures RemovedLater(entries, i, m + 1, n, used, removeLinks) <==>
      RemovedLater(entries, i, m, n, used, removeLinks) || (removeLinks && RemovesNumber(entries, i, m, n, used))
  {
    if removeLinks && RemovesNumber(entries, i, m, n, used) {
      assert RemovedLater(entries, i, m + 1, n, used, removeLinks);
    }
  }

  /** A link that no entry is about stays, and so does every kept one, whatever is refused. */
  lemma {:induction false} OthersStay(
    entries: seq<HEntry>, m: nat, n: nat, used: set<nat>, removeLinks: bool, refused: Refusals, was: map<nat, string>,
    id: nat)
    requires m <= |entries|
    requires forall i :: 0 <= i < m ==>
      && (Placed(entries[i], n) ==> LinkOf(entries, i, n, used) != Some(id))
      && (Stale(entries[i], n) ==> entries[i].oldId != id)
    ensures SameLink(was, LinksAfter(entries, m, n, used, removeLinks, refused, was).0, id)
  {
    if m > 0 {
      OthersStay(entries, m - 1, n, used, removeLinks, refused, was, id);
      AfterNext(entries, m - 1, n, used, removeLinks, refused, was);
      StepEffect(entries, m - 1, n, used, removeLinks, refused,
                 LinksAfter(entries, m - 1, n, used, removeLinks, refused, was).0, id);
    }
  }

  lemma {:induction false} KeptStays(
    entries: seq<HEntry>, n: nat, used: set<nat>, removeLinks: bool, refused: Refusals, was: map<nat, string>, id: nat)
    requires UsedOk(entries, n, used) && id in KeptIds(entries, n)
    ensures SameLink(was, LinksAfter(entries, |entries|, n, used, removeLinks, refused, was).0, id)
  {
    assert id in used && id < n;
    OthersStay(entries, |entries|, n, used, removeLinks, refused, was, id);
  }

  /** Every needed file is linked under its number. */
  predicate AllLinked(entries: seq<HEntry>, n: nat, used: set<nat>, links: map<nat, string>) {
    forall i :: 0 <= i < |entries| && entries[i].needed ==> LinkedNow(entries, i, n, used, links)
  }

  /** The kept links of needed files lead to them. */
  predicate KeptLead(entries: seq<HEntry>, n: nat, links: map<nat, string>) {
    forall i :: 0 <= i < |entries| && NeededKept(entries[i], n) ==>
      entries[i].oldId as nat in links && links[entries[i].oldId as nat] == entries[i].filename
  }

  predicate NothingRemoved(entries: seq<HEntry>, n: nat, used: set<nat>, removeLinks: bool) {
    forall i :: 0 <= i < |entries| && Placed(entries[i], n) ==>
      !RemovedLater(entries, i, |entries|, n, used, removeLinks)
  }

  /**
   After an error-free pass every needed file is linked exactly unless the removal of a stale link
   took the new link of an earlier entry away.
   */
  lemma {:induction false} AllLinkedExactly(
    entries: seq<HEntry>, n: nat, used: set<nat>, removeLinks: bool, refused: Refusals, was: map<nat, string>)
    requires UsedOk(entries, n, used) && Enough(entries, n, used) && KeptLead(entries, n, was)
    requires LinksAfter(entries, |entries|, n, used, removeLinks, refused, was).1 == 0
    ensures AllLinked(entries, n, used, LinksAfter(entries, |entries|, n, used, removeLinks, refused, was).0) <==>
      NothingRemoved(entries, n, used, removeLinks)
  {
    var now := LinksAfter(entries, |entries|, n, used, removeLinks, refused, was).0;
    forall i | 0 <= i < |entries| && Placed(entries[i], n)
      ensures LinkedNow(entries, i, n, used, now) <==> !RemovedLater(entries, i, |entries|, n, used, removeLinks)
    {
      LinkSurvives(entries, i, |entries|, n, used, removeLinks, refused, was);
    }
    forall i | 0 <= i < |entries| && NeededKept(entries[i], n)
      ensures LinkedNow(entries, i, n, used, now)
    {
      assert entries[i].oldId in KeptIds(entries, n);
      KeptStays(entries, n, used, removeLinks, refused, was, entries[i].oldId);
    }
  }

  /** With good old numbers no new link is removed again. */
  lemma {:induction false} GoodIdsRemoveNothing(entries: seq<HEntry>, n: nat, used: set<nat>, removeLinks: bool)
    requires GoodIds(entries, n) && UsedOk(entries, n, used) && n == CountNeeded(entries) <= MAX_COLLISIONS
    ensures NothingRemoved(entries, n, used, removeLinks)
  {
    forall i | 0 <= i < |entries| && Placed(entries[i], n)
      ensures !RemovedLater(entries, i, |entries|, n, used, removeLinks)
    {
      PlacedBelow(entries, i, n, used);
    }
  }

  /** A kept link of a file that needs none, a new file, and a stale link with the number that the file gets. */
  predicate NewThenStale(entries: seq<HEntry>) {
    && |entries| == 3
    && !entries[0].needed && entries[0].oldId == 0
    && entries[1].needed && entries[1].oldId == NO_ID
    && !entries[2].needed && entries[2].oldId == 1
  }

  /** The pass gives the new file number 1 and then removes that link as a stale one. */
  lemma {:induction false} StaleRemovesNew(entries: seq<HEntry>, n: nat, used: set<nat>, refused: Refusals,
                                           was: map<nat, string>)
    requires NewThenStale(entries) && n == 1 && used == {0}
    requires LinksAfter(entries, 3, n, used, true, refused, was).1 == 0
    ensures CountNeeded(entries) == n && UsedOk(entries, n, used) && Enough(entries, n, used)
    ensures KeptLead(entries, n, was) && LinkOf(entries, 1, n, used) == Some(1)
    ensures !AllLinked(entries, n, used, LinksAfter(entries, 3, n, used, true, refused, was).0)
  {
    NewThenStaleCounts(entries, n);
    FirstFree(used, MAX_COLLISIONS, 1);
    assert RemovesNumber(entries, 1, 2, n, used);
    assert RemovedLater(entries, 1, 3, n, used, true);
    AllLinkedExactly(entries, n, used, true, refused, was);
  }

  lemma {:induction false} NewThenStaleCounts(entries: seq<HEntry>, n: nat)
    requires NewThenStale(entries) && n == 1
    ensures CountNeeded(entries) == n && KeptIds(entries, n) == {0}
    ensures PlacedBefore(entries, 1, n) == 0 && PlacedBefore(entries, 3, n) == 1
  {
    assert NeededBefore(entries, 0) == 0 && NeededBefore(entries, 1) == 0 && NeededBefore(entries, 2) == 1;
    assert NeededBefore(entries, 3) == 1;
    NeededIsCount(entries, 3);
    assert entries[..3] == entries;
    assert PlacedBefore(entries, 0, n) == 0 && PlacedBefore(entries, 2, n) == 1;
    assert entries[0].oldId in KeptIds(entries, n);
  }
}
