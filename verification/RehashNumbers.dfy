/**
 The link numbers of `rehash.c` (`do_dir`): `hash.0`, `hash.1`, ... of one bucket. A lookup by hash
 stops at the first missing number, so the files that need a link should get numbers without a gap.

 The mask of used numbers has 256 bits. `used` is what it shows once the kept links are marked:
 their numbers, and bits that an earlier bucket left in the part that is not cleared.
 */
module RehashNumbers {
  import opened Common
  import opened RehashTable

  /** The entry has a link that the pass leaves alone. */
  predicate Kept(e: HEntry, n: nat) {
    e.oldId < n
  }

  /** The entry gets a new link. */
  predicate Placed(e: HEntry, n: nat) {
    e.needed && !Kept(e, n)
  }

  /** The entry has a link that is to be removed. */
  predicate Stale(e: HEntry, n: nat) {
    !e.needed && !Kept(e, n)
  }

  predicate NeededKept(e: HEntry, n: nat) {
    e.needed && Kept(e, n)
  }

  /** The numbers of the kept links. */
  function KeptIds(entries: seq<HEntry>, n: nat): set<nat> {
    set i: nat | i < |entries| && Kept(entries[i], n) :: entries[i].oldId as nat
  }

  /** The bits of the bytes that are cleared for `n` numbers. */
  function Cleared(n: nat): (bits: nat)
    ensures n <= bits
  {
    8 * MaskBytes(n)
  }

  /** What the mask may show: the kept numbers, and others in the part that is not cleared. */
  ghost predicate UsedOk(entries: seq<HEntry>, n: nat, used: set<nat>) {
    && KeptIds(entries, n) <= used
    && forall j :: j in used ==> j < MAX_COLLISIONS && (j < Cleared(n) ==> j in KeptIds(entries, n))
  }

  /** The numbers below `n` that are not used, in ascending order. */
  function FreeBelow(used: set<nat>, n: nat): (f: seq<nat>)
    ensures forall k :: 0 <= k < |f| ==> f[k] < n && f[k] !in used
    ensures forall j, k :: 0 <= j < k < |f| ==> f[j] < f[k]
  {
    if n == 0 then [] else FreeBelow(used, n - 1) + if n - 1 in used then [] else [n - 1]
  }

  /** The numbers that the mask offers. */
  function Supply(used: set<nat>): seq<nat> {
    FreeBelow(used, MAX_COLLISIONS)
  }

  /** How many entries before the `i`-th get a new link. */
  function PlacedBefore(entries: seq<HEntry>, i: nat, n: nat): nat
    requires i <= |entries|
  {
    if i == 0 then 0 else PlacedBefore(entries, i - 1, n) + if Placed(entries[i - 1], n) then 1 else 0
  }

  /** The mask offers a number to every entry that waits for one. */
  predicate Enough(entries: seq<HEntry>, n: nat, used: set<nat>) {
    PlacedBefore(entries, |entries|, n) <= |Supply(used)|
  }

  /** The link number of an entry: its old one, or the next free one in order; none for other entries. */
  function LinkOf(entries: seq<HEntry>, i: nat, n: nat, used: set<nat>): Option<nat>
    requires i < |entries|
  {
    if Kept(entries[i], n) then Some(entries[i].oldId)
    else if !entries[i].needed then None
    else
      var k := PlacedBefore(entries, i, n);
      if k < |Supply(used)| then Some(Supply(used)[k]) else None
  }

  // ----- counting

  function UsedBelow(used: set<nat>, n: nat): set<nat> {
    set k | k in used && k < n
  }

  /** Free and used numbers below `n` make up all of them. */
  lemma {:induction false} FreeCount(used: set<nat>, n: nat)
    ensures |FreeBelow(used, n)| + |UsedBelow(used, n)| == n
  {
    if n > 0 {
      FreeCount(used, n - 1);
      if n - 1 in used {
        assert UsedBelow(used, n) == UsedBelow(used, n - 1) + {n - 1};
      } else {
        assert UsedBelow(used, n) == UsedBelow(used, n - 1);
      }
    }
  }

  lemma {:induction false} FreeBelowPrefix(used: set<nat>, m: nat, n: nat)
    requires m <= n
    ensures FreeBelow(used, m) <= FreeBelow(used, n)
  {
    if m < n {
      FreeBelowPrefix(used, m, n - 1);
    }
  }

  /** No free number is skipped. */
  lemma {:induction false} FreeBelowComplete(used: set<nat>, n: nat, id: nat) returns (k: nat)
    requires id < n && id !in used
    ensures k < |FreeBelow(used, n)| && FreeBelow(used, n)[k] == id
  {
    if id == n - 1 {
      k := |FreeBelow(used, n)| - 1;
    } else {
      k := FreeBelowComplete(used, n - 1, id);
    }
  }

  /** Below the `k`-th free number there are `k` free ones. */
  lemma {:induction false} FreeRank(used: set<nat>, n: nat, k: nat)
    requires k < |FreeBelow(used, n)|
    ensures |FreeBelow(used, FreeBelow(used, n)[k])| == k
  {
    if k < |FreeBelow(used, n - 1)| {
      FreeRank(used, n - 1, k);
    }
  }

  function NeededKeptBefore(entries: seq<HEntry>, i: nat, n: nat): nat
    requires i <= |entries|
  {
    if i == 0 then 0 else NeededKeptBefore(entries, i - 1, n) + if NeededKept(entries[i - 1], n) then 1 else 0
  }

  function NeededBefore(entries: seq<HEntry>, i: nat): nat
    requires i <= |entries|
  {
    if i == 0 then 0 else NeededBefore(entries, i - 1) + if entries[i - 1].needed then 1 else 0
  }

  lemma {:induction false} NeededSplit(entries: seq<HEntry>, i: nat, n: nat)
    requires i <= |entries|
    ensures NeededBefore(entries, i) == NeededKeptBefore(entries, i, n) + PlacedBefore(entries, i, n)
  {
    if i > 0 {
      NeededSplit(entries, i - 1, n);
    }
  }

  lemma {:induction false} NeededIsCount(entries: seq<HEntry>, i: nat)
    requires i <= |entries|
    ensures NeededBefore(entries, i) == CountNeeded(entries[..i])
  {
    if i > 0 {
      NeededIsCount(entries, i - 1);
      assert entries[..i][..i - 1] == entries[..i - 1];
    }
  }

  /** Kept links of needed files have different numbers. */
  predicate DifferentKept(entries: seq<HEntry>, n: nat) {
    forall i, j :: 0 <= i < j < |entries| && NeededKept(entries[i], n) && NeededKept(entries[j], n) ==>
      entries[i].oldId != entries[j].oldId
  }

  function NeededKeptIds(entries: seq<HEntry>, i: nat, n: nat): set<nat>
    requires i <= |entries|
  {
    set j: nat | j < i && NeededKept(entries[j], n) :: entries[j].oldId as nat
  }

  lemma NeededKeptNext(entries: seq<HEntry>, i: nat, n: nat)
    requires i < |entries| && DifferentKept(entries, n)
    ensures NeededKept(entries[i], n) ==>
      && entries[i].oldId !in NeededKeptIds(entries, i, n)
      && NeededKeptIds(entries, i + 1, n) == NeededKeptIds(entries, i, n) + {entries[i].oldId}
    ensures !NeededKept(entries[i], n) ==> NeededKeptIds(entries, i + 1, n) == NeededKeptIds(entries, i, n)
  {
  }

  /** With different numbers, there are as many numbers as needed, kept entries. */
  lemma {:induction false} NeededKeptCount(entries: seq<HEntry>, i: nat, n: nat)
    requires i <= |entries| && DifferentKept(entries, n)
    ensures |NeededKeptIds(entries, i, n)| == NeededKeptBefore(entries, i, n)
  {
    if i == 0 {
      assert NeededKeptIds(entries, 0, n) == {};
    } else {
      NeededKeptCount(entries, i - 1, n);
      NeededKeptNext(entries, i - 1, n);
    }
  }

  lemma Smaller(a: set<nat>, b: set<nat>)
    requires a <= b
    ensures |a| <= |b|
  {
    assert b == a + (b - a);
  }

  /** The needed files are those whose links are kept and those that wait for a number. */
  lemma {:induction false} CountsAdd(entries: seq<HEntry>, n: nat)
    requires DifferentKept(entries, n)
    ensures CountNeeded(entries) ==
      |NeededKeptIds(entries, |entries|, n)| + PlacedBefore(entries, |entries|, n)
    ensures CountNeeded(entries) <= |KeptIds(entries, n)| + PlacedBefore(entries, |entries|, n)
  {
    NeededKeptCount(entries, |entries|, n);
    NeededSplit(entries, |entries|, n);
    NeededIsCount(entries, |entries|);
    assert entries[..|entries|] == entries;
    Smaller(NeededKeptIds(entries, |entries|, n), KeptIds(entries, n));
  }

  lemma {:induction false} PlacedMonotone(entries: seq<HEntry>, i: nat, j: nat, n: nat)
    requires i <= j <= |entries|
    ensures PlacedBefore(entries, i, n) <= PlacedBefore(entries, j, n)
    ensures i < j && Placed(entries[i], n) ==> PlacedBefore(entries, i, n) < PlacedBefore(entries, j, n)
  {
    if i < j {
      PlacedMonotone(entries, i, j - 1, n);
    }
  }

  lemma {:induction false} PlacedWithRank(entries: seq<HEntry>, i: nat, k: nat, n: nat) returns (j: nat)
    requires i <= |entries| && k < PlacedBefore(entries, i, n)
    ensures j < i && Placed(entries[j], n) && PlacedBefore(entries, j, n) == k
  {
    if PlacedBefore(entries, i - 1, n) == k {
      j := i - 1;
    } else {
      j := PlacedWithRank(entries, i - 1, k, n);
    }
  }

  /** When the mask offers enough numbers, an entry that waits gets the one of its rank. */
  lemma {:induction false} PlacedNumber(entries: seq<HEntry>, i: nat, n: nat, used: set<nat>)
    requires Enough(entries, n, used) && i < |entries| && Placed(entries[i], n)
    ensures PlacedBefore(entries, i, n) < |Supply(used)|
    ensures LinkOf(entries, i, n, used) == Some(Supply(used)[PlacedBefore(entries, i, n)])
  {
    PlacedMonotone(entries, i, |entries|, n);
  }

  /** Two needed entries with numbers have different ones, unless both links were kept. */
  lemma DifferentNumbers(entries: seq<HEntry>, i: nat, j: nat, n: nat, used: set<nat>)
    requires UsedOk(entries, n, used) && DifferentKept(entries, n)
    requires i < j < |entries| && entries[i].needed && entries[j].needed
    requires LinkOf(entries, i, n, used).Some? && LinkOf(entries, j, n, used).Some?
    ensures LinkOf(entries, i, n, used) != LinkOf(entries, j, n, used)
  {
    assert Kept(entries[i], n) ==> entries[i].oldId in KeptIds(entries, n);
    assert Kept(entries[j], n) ==> entries[j].oldId in KeptIds(entries, n);
    if Placed(entries[i], n) {
      PlacedMonotone(entries, i, j, n);
    }
    assert NeededKept(entries[i], n) && NeededKept(entries[j], n) ==> entries[i].oldId != entries[j].oldId;
  }

  /** The mask offers enough numbers exactly when the used ones and the entries that wait fit into it. */
  lemma {:induction false} EnoughExactly(entries: seq<HEntry>, n: nat, used: set<nat>)
    requires UsedOk(entries, n, used)
    ensures Enough(entries, n, used) <==> |used| + PlacedBefore(entries, |entries|, n) <= MAX_COLLISIONS
  {
    assert UsedBelow(used, MAX_COLLISIONS) == used;
    FreeCount(used, MAX_COLLISIONS);
  }

  /** Otherwise some entry waits for a number when the mask has no clear bit left. */
  lemma {:induction false} MaskRunsOut(entries: seq<HEntry>, n: nat, used: set<nat>) returns (i: nat)
    requires !Enough(entries, n, used)
    ensures i < |entries| && Placed(entries[i], n) && PlacedBefore(entries, i, n) == |Supply(used)|
    ensures LinkOf(entries, i, n, used) == None
    ensures forall j: nat :: j < MAX_COLLISIONS ==>
      j in used || exists k :: 0 <= k < |Supply(used)| && Supply(used)[k] == j
  {
    i := PlacedWithRank(entries, |entries|, |Supply(used)|, n);
    forall j: nat | j < MAX_COLLISIONS && j !in used
      ensures exists k :: 0 <= k < |Supply(used)| && Supply(used)[k] == j
    {
      var k := FreeBelowComplete(used, MAX_COLLISIONS, j);
    }
  }

  // ----- the needed files own the numbers below their count

  /** The files that need a link have exactly the numbers below `n`, each once. */
  predicate GapFree(entries: seq<HEntry>, n: nat, used: set<nat>) {
    && (forall i :: 0 <= i < |entries| && entries[i].needed ==>
          LinkOf(entries, i, n, used).Some? && LinkOf(entries, i, n, used).value < n)
    && (forall i, j :: 0 <= i < j < |entries| && entries[i].needed && entries[j].needed ==>
          LinkOf(entries, i, n, used) != LinkOf(entries, j, n, used))
    && (forall id: nat :: id < n ==> Owned(entries, id, n, used))
  }

  predicate Owned(entries: seq<HEntry>, id: nat, n: nat, used: set<nat>) {
    exists i :: 0 <= i < |entries| && entries[i].needed && LinkOf(entries, i, n, used) == Some(id)
  }

  /**
   What the caller can check before the pass: kept links of needed files have different numbers,
   and a link of a file that needs none keeps a number below `n` only if a needed file shares it.
   */
  predicate GoodIds(entries: seq<HEntry>, n: nat) {
    && DifferentKept(entries, n)
    && (forall i :: 0 <= i < |entries| && Kept(entries[i], n) ==> Shared(entries, entries[i].oldId, n))
  }

  predicate Shared(entries: seq<HEntry>, id: nat, n: nat) {
    exists j :: 0 <= j < |entries| && NeededKept(entries[j], n) && entries[j].oldId == id
  }

  /** Under `GoodIds` exactly as many numbers below `n` are free as entries wait for one. */
  lemma {:induction false} SupplyMeetsDemand(entries: seq<HEntry>, n: nat, used: set<nat>)
    requires GoodIds(entries, n) && UsedOk(entries, n, used) && n == CountNeeded(entries) <= MAX_COLLISIONS
    ensures |FreeBelow(used, n)| == PlacedBefore(entries, |entries|, n)
    ensures FreeBelow(used, n) <= Supply(used) && Enough(entries, n, used)
  {
    var kept := KeptIds(entries, n);
    assert kept == NeededKeptIds(entries, |entries|, n);
    assert UsedBelow(used, n) == kept;
    FreeCount(used, n);
    CountsAdd(entries, n);
    FreeBelowPrefix(used, n, MAX_COLLISIONS);
  }

  /** Under `GoodIds` new numbers are below `n`. */
  lemma {:induction false} PlacedBelow(entries: seq<HEntry>, i: nat, n: nat, used: set<nat>)
    requires GoodIds(entries, n) && UsedOk(entries, n, used) && n == CountNeeded(entries) <= MAX_COLLISIONS
    requires i < |entries| && Placed(entries[i], n)
    ensures LinkOf(entries, i, n, used).Some? && LinkOf(entries, i, n, used).value < n
  {
    SupplyMeetsDemand(entries, n, used);
    PlacedNumber(entries, i, n, used);
    PlacedMonotone(entries, i, |entries|, n);
    assert FreeBelow(used, n)[PlacedBefore(entries, i, n)] == Supply(used)[PlacedBefore(entries, i, n)];
  }

  lemma {:induction false} NumberIsOwned(entries: seq<HEntry>, id: nat, n: nat, used: set<nat>)
    requires GoodIds(entries, n) && UsedOk(entries, n, used) && n == CountNeeded(entries) <= MAX_COLLISIONS
    requires id < n
    ensures Owned(entries, id, n, used)
  {
    var kept := KeptIds(entries, n);
    if id in kept {
      var i: nat :| i < |entries| && Kept(entries[i], n) && entries[i].oldId == id;
      assert Shared(entries, id, n);
      var j :| 0 <= j < |entries| && NeededKept(entries[j], n) && entries[j].oldId == id;
      assert LinkOf(entries, j, n, used) == Some(id);
    } else {
      var k := FreeBelowComplete(used, n, id);
      SupplyMeetsDemand(entries, n, used);
      var j := PlacedWithRank(entries, |entries|, k, n);
      PlacedNumber(entries, j, n, used);
      assert FreeBelow(used, n)[k] == Supply(used)[k];
    }
  }

  lemma {:induction false} GoodIdsSuffice(entries: seq<HEntry>, n: nat, used: set<nat>)
    requires GoodIds(entries, n) && UsedOk(entries, n, used) && n == CountNeeded(entries) <= MAX_COLLISIONS
    ensures GapFree(entries, n, used)
  {
    forall i | 0 <= i < |entries| && entries[i].needed
      ensures LinkOf(entries, i, n, used).Some? && LinkOf(entries, i, n, used).value < n
    {
      if Placed(entries[i], n) {
        PlacedBelow(entries, i, n, used);
      }
    }
    forall i, j | 0 <= i < j < |entries| && entries[i].needed && entries[j].needed
      ensures LinkOf(entries, i, n, used) != LinkOf(entries, j, n, used)
    {
      DifferentNumbers(entries, i, j, n, used);
    }
    forall id: nat | id < n
      ensures Owned(entries, id, n, used)
    {
      NumberIsOwned(entries, id, n, used);
    }
  }

  /** The needed files own exactly the numbers below their count when, and only when, the old numbers are good. */
  lemma {:induction false} GapFreeExactly(entries: seq<HEntry>, n: nat, used: set<nat>)
    requires n == CountNeeded(entries) <= MAX_COLLISIONS && UsedOk(entries, n, used)
    ensures GapFree(entries, n, used) <==> GoodIds(entries, n)
  {
    if GoodIds(entries, n) {
      GoodIdsSuffice(entries, n, used);
    }
    if GapFree(entries, n, used) {
      forall i, j | 0 <= i < j < |entries| && NeededKept(entries[i], n) && NeededKept(entries[j], n)
        ensures entries[i].oldId != entries[j].oldId
      {
        assert LinkOf(entries, i, n, used) != LinkOf(entries, j, n, used);
      }
      forall i | 0 <= i < |entries| && Kept(entries[i], n)
        ensures Shared(entries, entries[i].oldId, n)
      {
        var id: nat := entries[i].oldId;
        assert Owned(entries, id, n, used) && id in KeptIds(entries, n);
        var j :| 0 <= j < |entries| && entries[j].needed && LinkOf(entries, j, n, used) == Some(id);
        assert NeededKept(entries[j], n);
      }
    }
  }

  // ----- a lookup reaches every needed file

  predicate Held(entries: seq<HEntry>, id: nat, n: nat, used: set<nat>) {
    exists i :: 0 <= i < |entries| && LinkOf(entries, i, n, used) == Some(id)
  }

  /**
   The needed files have numbers of their own, and no number below one of them is missing: a lookup
   that starts at 0 and goes on until a number is missing reaches them all.
   */
  predicate LookupOk(entries: seq<HEntry>, n: nat, used: set<nat>) {
    && (forall i :: 0 <= i < |entries| && entries[i].needed ==> LinkOf(entries, i, n, used).Some?)
    && (forall i, j :: 0 <= i < j < |entries| && entries[i].needed && entries[j].needed ==>
          LinkOf(entries, i, n, used) != LinkOf(entries, j, n, used))
    && (forall i, id: nat :: 0 <= i < |entries| && entries[i].needed && id < LinkOf(entries, i, n, used).value ==>
          Held(entries, id, n, used))
  }

  /** How many different numbers are kept or given. */
  function Spread(entries: seq<HEntry>, n: nat): nat {
    |KeptIds(entries, n)| + PlacedBefore(entries, |entries|, n)
  }

  /** There is room for them, and the mask shows no other number among the first so many. */
  ghost predicate NoStrays(entries: seq<HEntry>, n: nat, used: set<nat>) {
    Spread(entries, n) <= MAX_COLLISIONS
    && forall j :: j in used && j < Spread(entries, n) ==> j in KeptIds(entries, n)
  }

  /** Then the numbers kept or given are the first so many. */
  lemma {:induction false} NumbersInOrder(entries: seq<HEntry>, n: nat, used: set<nat>)
    requires UsedOk(entries, n, used) && n == CountNeeded(entries)
    requires DifferentKept(entries, n) && NoStrays(entries, n, used)
    ensures |FreeBelow(used, Spread(entries, n))| == PlacedBefore(entries, |entries|, n)
    ensures FreeBelow(used, Spread(entries, n)) <= Supply(used)
    ensures forall id: nat :: id < Spread(entries, n) ==> Held(entries, id, n, used)
  {
    var m, kept := Spread(entries, n), KeptIds(entries, n);
    CountsAdd(entries, n);
    assert UsedBelow(used, m) == kept;
    FreeCount(used, m);
    FreeBelowPrefix(used, m, MAX_COLLISIONS);
    forall id: nat | id < m
      ensures Held(entries, id, n, used)
    {
      if id in kept {
        var i: nat :| i < |entries| && Kept(entries[i], n) && entries[i].oldId == id;
        assert LinkOf(entries, i, n, used) == Some(id);
      } else {
        var k := FreeBelowComplete(used, m, id);
        var j := PlacedWithRank(entries, |entries|, k, n);
        assert LinkOf(entries, j, n, used) == Some(id);
      }
    }
  }

  lemma {:induction false} LookupSuffices(entries: seq<HEntry>, n: nat, used: set<nat>)
    requires UsedOk(entries, n, used) && n == CountNeeded(entries)
    requires DifferentKept(entries, n) && NoStrays(entries, n, used)
    ensures LookupOk(entries, n, used)
  {
    NumbersInOrder(entries, n, used);
    CountsAdd(entries, n);
    var free := FreeBelow(used, Spread(entries, n));
    forall i | 0 <= i < |entries| && entries[i].needed
      ensures LinkOf(entries, i, n, used).Some? && LinkOf(entries, i, n, used).value < Spread(entries, n)
    {
      if Placed(entries[i], n) {
        PlacedNumber(entries, i, n, used);
        PlacedMonotone(entries, i, |entries|, n);
        assert free[PlacedBefore(entries, i, n)] == Supply(used)[PlacedBefore(entries, i, n)];
      }
    }
    forall i, j | 0 <= i < j < |entries| && entries[i].needed && entries[j].needed
      ensures LinkOf(entries, i, n, used) != LinkOf(entries, j, n, used)
    {
      DifferentNumbers(entries, i, j, n, used);
    }
  }

  /** Below the number of a needed entry the mask shows kept numbers only. */
  lemma UsedBelowHeld(entries: seq<HEntry>, i: nat, n: nat, used: set<nat>)
    requires UsedOk(entries, n, used) && LookupOk(entries, n, used) && i < |entries| && entries[i].needed
    ensures var f := LinkOf(entries, i, n, used).value;
      UsedBelow(used, f) == UsedBelow(KeptIds(entries, n), f)
  {
    var f := LinkOf(entries, i, n, used).value;
    forall id | id in used && id < f
      ensures id in KeptIds(entries, n)
    {
      assert Held(entries, id, n, used);
      var j :| 0 <= j < |entries| && LinkOf(entries, j, n, used) == Some(id);
      assert Kept(entries[j], n);
    }
  }

  lemma {:induction false} LookupNeeds(entries: seq<HEntry>, n: nat, used: set<nat>)
    requires UsedOk(entries, n, used) && n == CountNeeded(entries) <= MAX_COLLISIONS && LookupOk(entries, n, used)
    requires DifferentKept(entries, n)
    ensures NoStrays(entries, n, used)
  {
    var p := PlacedBefore(entries, |entries|, n);
    CountsAdd(entries, n);
    assert UsedBelow(used, n) == KeptIds(entries, n);
    FreeCount(used, n);
    if p > 0 {
      var i := PlacedWithRank(entries, |entries|, p - 1, n);
      LastNumber(entries, i, n, used);
    }
  }

  /** The last number that is given: below it the mask shows kept numbers only, so it is one below the spread. */
  lemma {:induction false} LastNumber(entries: seq<HEntry>, i: nat, n: nat, used: set<nat>)
    requires UsedOk(entries, n, used) && n == CountNeeded(entries) <= MAX_COLLISIONS && LookupOk(entries, n, used)
    requires DifferentKept(entries, n) && i < |entries| && Placed(entries[i], n)
    requires PlacedBefore(entries, i, n) + 1 == PlacedBefore(entries, |entries|, n)
    ensures NoStrays(entries, n, used)
  {
    var kept, p := KeptIds(entries, n), PlacedBefore(entries, |entries|, n);
    var f := LinkOf(entries, i, n, used).value;
    assert f == Supply(used)[p - 1];
    UsedBelowHeld(entries, i, n, used);
    FreeRank(used, MAX_COLLISIONS, p - 1);
    FreeCount(used, f);
    CountsAdd(entries, n);
    if f < n {
      assert UsedBelow(used, n) == kept;
      FreeCount(used, n);
      FreeUpTo(used, f, n, p);
    } else {
      assert UsedBelow(kept, f) == kept;
    }
  }

  /** A free number below `n` counts among the free ones there. */
  lemma {:induction false} FreeUpTo(used: set<nat>, f: nat, n: nat, p: nat)
    requires f < n && f !in used && |FreeBelow(used, f)| + 1 == p
    ensures |FreeBelow(used, n)| >= p
  {
    FreeBelowPrefix(used, f + 1, n);
  }

  /**
   A lookup reaches every needed file exactly when the kept links of needed files have different
   numbers and the mask shows nothing in the way of the first so many numbers.
   */
  lemma {:induction false} LookupExactly(entries: seq<HEntry>, n: nat, used: set<nat>)
    requires n == CountNeeded(entries) <= MAX_COLLISIONS && UsedOk(entries, n, used)
    ensures LookupOk(entries, n, used) <==> DifferentKept(entries, n) && NoStrays(entries, n, used)
  {
    if DifferentKept(entries, n) && NoStrays(entries, n, used) {
      LookupSuffices(entries, n, used);
    }
    if LookupOk(entries, n, used) {
      forall i, j | 0 <= i < j < |entries| && NeededKept(entries[i], n) && NeededKept(entries[j], n)
        ensures entries[i].oldId != entries[j].oldId
      {
        assert LinkOf(entries, i, n, used) != LinkOf(entries, j, n, used);
      }
      LookupNeeds(entries, n, used);
    }
  }

  /** The lowest free number is given first. */
  lemma {:induction false} FirstFree(used: set<nat>, n: nat, f: nat)
    requires f < n && f !in used && forall j: nat :: j < f ==> j in used
    ensures |FreeBelow(used, n)| > 0 && FreeBelow(used, n)[0] == f
  {
    var k := FreeBelowComplete(used, n, f);
  }

  /** Two entries: a kept link of a file that needs none, and a file that waits for a number. */
  predicate IdleAndNew(entries: seq<HEntry>) {
    |entries| == 2 && !entries[0].needed && entries[0].oldId == 0 && entries[1].needed && entries[1].oldId == NO_ID
  }

  lemma {:induction false} IdleAndNewCounts(entries: seq<HEntry>, n: nat)
    requires IdleAndNew(entries) && n == 1
    ensures CountNeeded(entries) == n && KeptIds(entries, n) == {0} && DifferentKept(entries, n)
    ensures PlacedBefore(entries, 1, n) == 0 && PlacedBefore(entries, 2, n) == 1
    ensures !GoodIds(entries, n)
  {
    assert entries[..1] == [entries[0]] && entries[..1][..0] == [];
    assert CountNeeded(entries[..1]) == 0;
    assert PlacedBefore(entries, 0, n) == 0;
    assert !Shared(entries, 0, n);
  }

  /**
   A link of a file that needs none keeps number 0: the needed file gets number 1, so the needed
   files do not own the numbers below their count, although no number is missing.
   */
  lemma OwnedByAnother(entries: seq<HEntry>, n: nat, used: set<nat>)
    requires IdleAndNew(entries) && n == 1 && used == KeptIds(entries, n)
    ensures UsedOk(entries, n, used) && !GoodIds(entries, n) && !GapFree(entries, n, used)
    ensures LinkOf(entries, 1, n, used) == Some(1) && LookupOk(entries, n, used)
  {
    IdleAndNewCounts(entries, n);
    GapFreeExactly(entries, n, used);
    FirstFree(used, MAX_COLLISIONS, 1);
    LookupExactly(entries, n, used);
  }

  /** Eight files that wait for a number, and number 7 kept by a file that needs none. */
  predicate IdleAndEight(entries: seq<HEntry>) {
    && |entries| == 9 && !entries[0].needed && entries[0].oldId == 7
    && forall i :: 1 <= i < 9 ==> entries[i].needed && entries[i].oldId == NO_ID
  }

  lemma {:induction false} IdleAndEightCounts(entries: seq<HEntry>, i: nat)
    requires IdleAndEight(entries) && 1 <= i <= 9
    ensures PlacedBefore(entries, i, 8) == NeededBefore(entries, i) == i - 1
  {
    if i == 1 {
      assert PlacedBefore(entries, 0, 8) == NeededBefore(entries, 0) == 0;
    } else {
      IdleAndEightCounts(entries, i - 1);
    }
  }

  /** The ninth number is needed, and its bit was left set by an earlier bucket: number 8 is missing. */
  lemma {:induction false} StrayBitMakesGap(entries: seq<HEntry>, n: nat, used: set<nat>)
    requires IdleAndEight(entries) && n == 8 && used == {7, 8}
    ensures n == CountNeeded(entries) && UsedOk(entries, n, used)
    ensures DifferentKept(entries, n) && !LookupOk(entries, n, used)
  {
    IdleAndEightCounts(entries, 9);
    NeededIsCount(entries, 9);
    assert entries[..9] == entries;
    assert entries[0].oldId in KeptIds(entries, n) && KeptIds(entries, n) == {7};
    LookupExactly(entries, n, used);
    assert Spread(entries, n) == 9 && 8 in used && 8 !in KeptIds(entries, n);
  }

  /** A link that needs no file and as many files as the bound allows, as a run of calls leaves them. */
  lemma {:induction false} CrowdCounts(b: Bucket, i: nat)
    requires Crowded(b, MAX_COLLISIONS) && 1 <= i <= |b.entries|
    ensures PlacedBefore(b.entries, i, MAX_COLLISIONS) == NeededBefore(b.entries, i) == i - 1
  {
    if i == 1 {
      assert PlacedBefore(b.entries, 0, MAX_COLLISIONS) == NeededBefore(b.entries, 0) == 0;
    } else {
      CrowdCounts(b, i - 1);
    }
  }

  lemma {:induction false} CrowdIds(b: Bucket, n: nat)
    requires Crowded(b, n) && n == MAX_COLLISIONS
    ensures KeptIds(b.entries, n) == {0} && PlacedBefore(b.entries, |b.entries|, n) == n == CountNeeded(b.entries)
  {
    CrowdCounts(b, |b.entries|);
    NeededIsCount(b.entries, |b.entries|);
    assert b.entries[..|b.entries|] == b.entries;
    assert b.entries[0].oldId in KeptIds(b.entries, n);
  }

  /** The run up to this bucket keeps the bound, but every mask has one number too few for it. */
  lemma {:induction false} CrowdFillsMask(calls: seq<Call>, empty: Bucket, n: nat, b: Bucket, used: set<nat>)
    requires IsCrowd(calls) && empty == EmptyBucket(0, 0) && n == MAX_COLLISIONS
    requires b == RunBucket(empty, calls, n + 1) && UsedOk(b.entries, n, used)
    ensures NoPromotion(empty, calls, n + 1) && b.numNeeded == CountNeeded(b.entries) == n
    ensures !Enough(b.entries, n, used) && !LookupOk(b.entries, n, used)
  {
    CrowdRun(calls, empty, n);
    CrowdBound(calls, empty, n + 1);
    RunKeepsBound(empty, calls, n + 1);
    CrowdIds(b, n);
    assert 0 in used && |used| > 0;
    EnoughExactly(b.entries, n, used);
    LookupExactly(b.entries, n, used);
  }
}
