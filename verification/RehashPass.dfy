/**
 The pass of `rehash.c` (`do_dir`) as a run, step by step: what each entry does to the links, which
 numbers are taken, what is counted as an error, and in which order the buckets come.
 */
module RehashPass {
  import opened Common
  import opened RehashTable
  import opened RehashNumbers
  import opened RehashLinks
  import opened RehashResult
  import opened RehashDir

  // ----- one entry

  function One(b: bool): nat {
    if b then 1 else 0
  }

  /** All other links stay. */
  ghost predicate OnlyLink(was: Links, now: Links, id: int) {
    forall k: nat :: k != id ==> SameLink(was, now, k)
  }

  /** `hash.id` leads to the file unless one of the calls was refused, and refused calls are counted. */
  ghost predicate Replaced(e: HEntry, id: nat, noUnlink: bool, noSymlink: bool, was: Links, now: Links, more: int) {
    && OnlyLink(was, now, id)
    && more == One(noUnlink) + One(noSymlink || (noUnlink && id in was))
    && if noUnlink && id in was then SameLink(was, now, id)
       else if noSymlink then id !in now
       else id in now && now[id] == e.filename
  }

  /** `hash.id` is gone unless the call was refused. */
  ghost predicate Deleted(id: int, noUnlink: bool, was: Links, now: Links, more: int) {
    && OnlyLink(was, now, id)
    && more == One(noUnlink)
    && (id >= 0 ==> if noUnlink then SameLink(was, now, id) else id !in now)
  }

  /** The three cases of the loop body; `id` is the number that a new link gets, `more` the errors of this turn. */
  ghost predicate EntryDone(e: HEntry, n: nat, id: nat, removeLinks: bool, noUnlink: bool, noSymlink: bool,
                            was: Links, now: Links, more: int) {
    if e.oldId < n then now == was && more == 0
    else if e.needed then Replaced(e, id, noUnlink, noSymlink, was, now, more)
    else if removeLinks then Deleted(e.oldId, noUnlink, was, now, more)
    else now == was && more == 0
  }

  lemma StepExactly(entries: seq<HEntry>, i: nat, n: nat, used: set<nat>, id: nat, removeLinks: bool,
                    refused: Refusals, was: Links)
    requires i < |entries| && (Placed(entries[i], n) ==> LinkOf(entries, i, n, used) == Some(id))
    ensures var (now, errs) := LinkStep(entries, i, n, used, removeLinks, refused, was);
      EntryDone(entries[i], n, id, removeLinks, refused.unlink(i), refused.symlink(i), was, now, errs)
  {
  }

  // ----- the numbers

  /**
   Each waiting entry gets the least number that the mask does not show and no earlier one took.
   */
  ghost predicate LeastFree(entries: seq<HEntry>, n: nat, used: set<nat>, ids: seq<nat>) {
    && |ids| == |entries|
    && forall i :: 0 <= i < |entries| && Placed(entries[i], n) ==> LeastFreeAt(entries, i, n, used, ids)
  }

  ghost predicate TakenBefore(entries: seq<HEntry>, i: nat, n: nat, ids: seq<nat>, id: nat)
    requires i <= |entries| == |ids|
  {
    exists j :: 0 <= j < i && Placed(entries[j], n) && ids[j] == id
  }

  ghost predicate LeastFreeAt(entries: seq<HEntry>, i: nat, n: nat, used: set<nat>, ids: seq<nat>)
    requires i < |entries| == |ids|
  {
    && ids[i] < 256 && ids[i] !in used && !TakenBefore(entries, i, n, ids, ids[i])
    && forall id: nat :: id < ids[i] ==> id in used || TakenBefore(entries, i, n, ids, id)
  }

  /** The numbers of the entries; 0 stands for none. */
  function Numbers(entries: seq<HEntry>, n: nat, used: set<nat>): (ids: seq<nat>)
    ensures |ids| == |entries|
  {
    seq(|entries|, i requires 0 <= i < |entries| =>
      var id := LinkOf(entries, i, n, used); if id.Some? then id.value else 0)
  }

  lemma NumbersLeastFree(entries: seq<HEntry>, n: nat, used: set<nat>)
    requires Enough(entries, n, used)
    ensures LeastFree(entries, n, used, Numbers(entries, n, used))
  {
    var ids := Numbers(entries, n, used);
    forall i | 0 <= i < |entries| && Placed(entries[i], n)
      ensures LeastFreeAt(entries, i, n, used, ids)
    {
      NumberLeastFree(entries, i, n, used, ids);
    }
  }

  lemma NumberLeastFree(entries: seq<HEntry>, i: nat, n: nat, used: set<nat>, ids: seq<nat>)
    requires Enough(entries, n, used) && ids == Numbers(entries, n, used)
    requires i < |entries| && Placed(entries[i], n)
    ensures LeastFreeAt(entries, i, n, used, ids)
  {
    PlacedNumber(entries, i, n, used);
    if TakenBefore(entries, i, n, ids, ids[i]) {
      var j :| 0 <= j < i && Placed(entries[j], n) && ids[j] == ids[i];
      PlacedNumber(entries, j, n, used);
      PlacedDiffer(entries, j, i, n, used);
    }
    forall id: nat | id < ids[i] && id !in used
      ensures TakenBefore(entries, i, n, ids, id)
    {
      var m := FreeBelowComplete(used, MAX_COLLISIONS, id);
      var j := PlacedWithRank(entries, i, m, n);
      PlacedNumber(entries, j, n, used);
      assert ids[j] == id;
    }
  }

  /** The mask when the numbers are given out: kept links, and what stood in bytes that are not cleared. */
  ghost predicate MaskFor(used: set<nat>, entries: seq<HEntry>, n: nat, left: set<nat>) {
    forall j: nat :: j in used <==>
      || (j < n && exists i :: 0 <= i < |entries| && entries[i].oldId == j)
      || (j in left && (n + 7) / 8 * 8 <= j < 256)
  }

  lemma MaskExactly(entries: seq<HEntry>, n: nat, left: set<nat>)
    ensures MaskFor(MaskUsed(entries, n, left), entries, n, left)
  {
  }

  /** The mask afterwards. */
  ghost predicate MaskThen(mask: set<nat>, used: set<nat>, entries: seq<HEntry>, n: nat, ids: seq<nat>)
    requires |ids| == |entries|
  {
    forall j: nat :: j in mask <==> j in used || TakenBefore(entries, |entries|, n, ids, j)
  }

  lemma MaskThenExactly(entries: seq<HEntry>, n: nat, used: set<nat>)
    requires Enough(entries, n, used)
    ensures MaskThen(MaskAfter(entries, n, used), used, entries, n, Numbers(entries, n, used))
  {
    var ids, k := Numbers(entries, n, used), PlacedBefore(entries, |entries|, n);
    forall id: nat
      ensures id in Taken(Supply(used), k) <==> TakenBefore(entries, |entries|, n, ids, id)
    {
      if id in Taken(Supply(used), k) {
        var m: nat :| m < k && Supply(used)[m] == id;
        var j := PlacedWithRank(entries, |entries|, m, n);
        PlacedNumber(entries, j, n, used);
        assert ids[j] == id;
      }
      if TakenBefore(entries, |entries|, n, ids, id) {
        var j :| 0 <= j < |entries| && Placed(entries[j], n) && ids[j] == id;
        PlacedNumber(entries, j, n, used);
        PlacedMonotone(entries, j, |entries|, n);
      }
    }
  }

  /** The entries that wait for a number. */
  function Waiting(entries: seq<HEntry>, m: nat, n: nat): set<nat>
    requires m <= |entries|
  {
    set i: nat | i < m && entries[i].needed && !(entries[i].oldId < n)
  }

  lemma {:induction false} WaitingCount(entries: seq<HEntry>, m: nat, n: nat)
    requires m <= |entries|
    ensures |Waiting(entries, m, n)| == PlacedBefore(entries, m, n)
  {
    if m > 0 {
      WaitingCount(entries, m - 1, n);
      assert Waiting(entries, m, n) ==
        Waiting(entries, m - 1, n) + if Placed(entries[m - 1], n) then {m - 1} else {};
    } else {
      assert Waiting(entries, 0, n) == {};
    }
  }

  /** The pass over a bucket stays within the mask exactly when the numbers in use and the waiting entries fit. */
  lemma FitsExactly(b: Bucket, left: set<nat>)
    ensures FitsMask(b, left) <==>
      && b.numNeeded <= 256
      && |MaskUsed(b.entries, b.numNeeded, left)| + |Waiting(b.entries, |b.entries|, b.numNeeded)| <= 256
  {
    WaitingCount(b.entries, |b.entries|, b.numNeeded);
    if b.numNeeded <= 256 {
      MaskUsedOk(b.entries, b.numNeeded, left);
      EnoughExactly(b.entries, b.numNeeded, MaskUsed(b.entries, b.numNeeded, left));
    }
  }

  // ----- one bucket

  /** The links and the errors so far, entry by entry. */
  ghost predicate EntryRun(entries: seq<HEntry>, n: nat, ids: seq<nat>, removeLinks: bool, refused: Refusals,
                           links: seq<Links>, errs: seq<int>) {
    && |ids| == |entries| && |links| == |errs| <= |entries| + 1 && links != []
    && forall i :: 0 <= i < |links| - 1 ==>
         EntryDone(entries[i], n, ids[i], removeLinks, refused.unlink(i), refused.symlink(i), links[i], links[i + 1],
                   errs[i + 1] - errs[i])
  }

  lemma EntryNext(entries: seq<HEntry>, i: nat, n: nat, used: set<nat>, ids: seq<nat>, removeLinks: bool,
                  refused: Refusals, was: Links, now: Links, more: nat)
    requires i < |entries| && Enough(entries, n, used) && ids == Numbers(entries, n, used)
    requires (now, more) == LinkStep(entries, i, n, used, removeLinks, refused, was)
    ensures EntryDone(entries[i], n, ids[i], removeLinks, refused.unlink(i), refused.symlink(i), was, now, more)
  {
    if Placed(entries[i], n) {
      PlacedNumber(entries, i, n, used);
    }
    StepExactly(entries, i, n, used, ids[i], removeLinks, refused, was);
  }

  lemma {:induction false} PassRun(entries: seq<HEntry>, m: nat, n: nat, used: set<nat>, ids: seq<nat>,
                                   removeLinks: bool, refused: Refusals, was: Links)
    returns (links: seq<Links>, errs: seq<int>)
    requires m <= |entries| && Enough(entries, n, used) && ids == Numbers(entries, n, used)
    ensures EntryRun(entries, n, ids, removeLinks, refused, links, errs) && |links| == m + 1
    ensures links[0] == was && errs[0] == 0 && errs[m] >= 0
    ensures LinksAt(entries, m, n, used, removeLinks, refused, was, links[m], errs[m])
  {
    if m == 0 {
      return [was], [0];
    }
    var before, errs0 := PassRun(entries, m - 1, n, used, ids, removeLinks, refused, was);
    var (now, more) := LinkStep(entries, m - 1, n, used, removeLinks, refused, before[m - 1]);
    LinksNext(entries, m - 1, n, used, removeLinks, refused, was, before[m - 1], errs0[m - 1], now, more);
    links, errs := RunOn(entries, m - 1, n, used, ids, removeLinks, refused, before, errs0, now, more);
  }

  lemma RunOn(entries: seq<HEntry>, i: nat, n: nat, used: set<nat>, ids: seq<nat>, removeLinks: bool,
              refused: Refusals, links0: seq<Links>, errs0: seq<int>, now: Links, more: nat)
    returns (links: seq<Links>, errs: seq<int>)
    requires i < |entries| && Enough(entries, n, used) && ids == Numbers(entries, n, used)
    requires EntryRun(entries, n, ids, removeLinks, refused, links0, errs0) && |links0| == i + 1
    requires (now, more) == LinkStep(entries, i, n, used, removeLinks, refused, links0[i])
    ensures EntryRun(entries, n, ids, removeLinks, refused, links, errs) && |links| == i + 2
    ensures links[0] == links0[0] && errs[0] == errs0[0]
    ensures links[i + 1] == now && errs[i + 1] == errs0[i] + more
  {
    EntryNext(entries, i, n, used, ids, removeLinks, refused, links0[i], now, more);
    links, errs := RunNext(entries, n, ids, removeLinks, refused, links0, errs0, now, more);
  }

  lemma RunNext(entries: seq<HEntry>, n: nat, ids: seq<nat>, removeLinks: bool, refused: Refusals,
                links0: seq<Links>, errs0: seq<int>, now: Links, more: nat)
    returns (links: seq<Links>, errs: seq<int>)
    requires EntryRun(entries, n, ids, removeLinks, refused, links0, errs0) && |links0| <= |entries|
    requires var i := |links0| - 1;
      EntryDone(entries[i], n, ids[i], removeLinks, refused.unlink(i), refused.symlink(i), links0[i], now, more)
    ensures EntryRun(entries, n, ids, removeLinks, refused, links, errs) && |links| == |links0| + 1
    ensures links[0] == links0[0] && errs[0] == errs0[0]
    ensures links[|links0|] == now && errs[|links0|] == errs0[|links0| - 1] + more
  {
    links, errs := links0 + [now], errs0 + [errs0[|errs0| - 1] + more];
    var last := |links0| - 1;
    forall i | 0 <= i < |links| - 1
      ensures EntryDone(entries[i], n, ids[i], removeLinks, refused.unlink(i), refused.symlink(i), links[i],
                        links[i + 1], errs[i + 1] - errs[i])
    {
      if i < last {
        assert links[i] == links0[i] && links[i + 1] == links0[i + 1];
        assert errs[i] == errs0[i] && errs[i + 1] == errs0[i + 1];
      }
    }
  }

  /** What the pass over a bucket does, from the mask and the links before it to those behind it. */
  ghost predicate BucketDone(st: State, b: Bucket, removeLinks: bool, refused: Refusals, st': State) {
    exists used, ids, links, errs :: BucketDoneBy(st, b, removeLinks, refused, st', used, ids, links, errs)
  }

  ghost predicate BucketDoneBy(st: State, b: Bucket, removeLinks: bool, refused: Refusals, st': State, used: set<nat>,
                               ids: seq<nat>, links: seq<Links>, errs: seq<int>) {
    && MaskFor(used, b.entries, b.numNeeded, st.mask) && LeastFree(b.entries, b.numNeeded, used, ids)
    && EntryRun(b.entries, b.numNeeded, ids, removeLinks, refused, links, errs) && |links| == |b.entries| + 1
    && links[0] == LinksIn(st.links, b.typ, b.hash) && errs[0] == 0
    && st'.links == st.links[(b.typ, b.hash) := links[|b.entries|]] && st'.errs == st.errs + errs[|b.entries|]
    && MaskThen(st'.mask, used, b.entries, b.numNeeded, ids)
  }

  lemma BucketExactly(st: State, b: Bucket, removeLinks: bool, refused: Refusals, st': State)
    requires PassBucket(st, b, removeLinks, refused) == Some(st')
    ensures BucketDone(st, b, removeLinks, refused, st')
  {
    var n := b.numNeeded;
    var used := MaskUsed(b.entries, n, st.mask);
    MaskExactly(b.entries, n, st.mask);
    NumbersLeastFree(b.entries, n, used);
    MaskThenExactly(b.entries, n, used);
    var ids, was := Numbers(b.entries, n, used), LinksIn(st.links, b.typ, b.hash);
    var links, errs := PassRun(b.entries, |b.entries|, n, used, ids, removeLinks, refused, was);
    assert BucketDoneBy(st, b, removeLinks, refused, st', used, ids, links, errs);
  }

  // ----- errors

  /** Some call that the entry makes is refused. */
  predicate Hindered(e: HEntry, i: nat, n: nat, removeLinks: bool, refused: Refusals) {
    && !(e.oldId < n)
    && if e.needed then refused.unlink(i) || refused.symlink(i) else removeLinks && refused.unlink(i)
  }

  /** A pass reports no error exactly when none of its calls is refused. */
  lemma {:induction false} CleanExactly(entries: seq<HEntry>, m: nat, n: nat, used: set<nat>, removeLinks: bool,
                                        refused: Refusals, was: Links)
    requires m <= |entries| && Enough(entries, n, used)
    ensures LinksAfter(entries, m, n, used, removeLinks, refused, was).1 == 0 <==>
      forall i :: 0 <= i < m ==> !Hindered(entries[i], i, n, removeLinks, refused)
  {
    if m > 0 {
      CleanExactly(entries, m - 1, n, used, removeLinks, refused, was);
      AfterNext(entries, m - 1, n, used, removeLinks, refused, was);
      if Placed(entries[m - 1], n) {
        PlacedNumber(entries, m - 1, n, used);
      }
    }
  }

  // ----- all buckets

  /** The buckets of the first `i` chains, chain by chain from the head. */
  function Order(chains: seq<seq<Bucket>>, i: nat): seq<Bucket>
    requires i <= |chains|
  {
    if i == 0 then [] else Order(chains, i - 1) + chains[i - 1]
  }

  /** One state before each bucket and one at the end. */
  ghost predicate Passes(states: seq<State>, buckets: seq<Bucket>, removeLinks: bool,
                         refused: (nat, nat) -> Refusals) {
    && |states| == |buckets| + 1
    && forall j :: 0 <= j < |buckets| ==>
         PassBucket(states[j], buckets[j], removeLinks, refused(buckets[j].typ, buckets[j].hash)) == Some(states[j + 1])
  }

  lemma PassesNext(states: seq<State>, buckets: seq<Bucket>, b: Bucket, removeLinks: bool,
                   refused: (nat, nat) -> Refusals, st': State)
    requires Passes(states, buckets, removeLinks, refused)
    requires PassBucket(states[|buckets|], b, removeLinks, refused(b.typ, b.hash)) == Some(st')
    ensures Passes(states + [st'], buckets + [b], removeLinks, refused)
  {
    var all, now := buckets + [b], states + [st'];
    forall j | 0 <= j < |all|
      ensures PassBucket(now[j], all[j], removeLinks, refused(all[j].typ, all[j].hash)) == Some(now[j + 1])
    {
      if j < |buckets| {
        assert all[j] == buckets[j] && now[j] == states[j] && now[j + 1] == states[j + 1];
      }
    }
  }

  lemma OneMore<T>(done: seq<T>, chain: seq<T>, k: nat)
    requires k < |chain|
    ensures done + chain[..k] + [chain[k]] == done + chain[..k + 1]
  {
  }

  lemma {:induction false} LastBucket(st: State, chain: seq<Bucket>, k: nat, removeLinks: bool,
                                      refused: (nat, nat) -> Refusals, st': State) returns (middle: State)
    requires k < |chain| && PassChain(st, chain, k + 1, removeLinks, refused) == Some(st')
    ensures PassChain(st, chain, k, removeLinks, refused) == Some(middle)
    ensures PassBucket(middle, chain[k], removeLinks, refused(chain[k].typ, chain[k].hash)) == Some(st')
  {
    middle := PassChain(st, chain, k, removeLinks, refused).value;
  }

  lemma {:induction false} ChainPasses(
    before: seq<State>, done: seq<Bucket>, last: State, chain: seq<Bucket>, k: nat, removeLinks: bool,
    refused: (nat, nat) -> Refusals, st': State) returns (states: seq<State>)
    requires Passes(before, done, removeLinks, refused) && before[|done|] == last && k <= |chain|
    requires PassChain(last, chain, k, removeLinks, refused) == Some(st')
    ensures Passes(states, done + chain[..k], removeLinks, refused)
    ensures states[0] == before[0] && states[|states| - 1] == st'
  {
    if k == 0 {
      assert done + chain[..0] == done;
      return before;
    }
    var b := chain[k - 1];
    var middle := LastBucket(last, chain, k - 1, removeLinks, refused, st');
    states := ChainPasses(before, done, last, chain, k - 1, removeLinks, refused, middle);
    PassesNext(states, done + chain[..k - 1], b, removeLinks, refused, st');
    OneMore(done, chain, k - 1);
    states := states + [st'];
  }

  lemma {:induction false} LastChain(st: State, chains: seq<seq<Bucket>>, i: nat, removeLinks: bool,
                                     refused: (nat, nat) -> Refusals, st': State) returns (middle: State)
    requires i < |chains| && PassTable(st, chains, i + 1, removeLinks, refused) == Some(st')
    ensures PassTable(st, chains, i, removeLinks, refused) == Some(middle)
    ensures PassChain(middle, chains[i], |chains[i]|, removeLinks, refused) == Some(st')
  {
    middle := PassTable(st, chains, i, removeLinks, refused).value;
  }

  /** A pass within the mask takes the buckets in the order of the chains, each from the state that the last left. */
  lemma {:induction false} TablePasses(st: State, chains: seq<seq<Bucket>>, i: nat, removeLinks: bool,
                                       refused: (nat, nat) -> Refusals, st': State) returns (states: seq<State>)
    requires i <= |chains| && PassTable(st, chains, i, removeLinks, refused) == Some(st')
    ensures Passes(states, Order(chains, i), removeLinks, refused)
    ensures states[0] == st && states[|states| - 1] == st'
  {
    if i == 0 {
      return [st];
    }
    var chain := chains[i - 1];
    var middle := LastChain(st, chains, i - 1, removeLinks, refused, st');
    var before := TablePasses(st, chains, i - 1, removeLinks, refused, middle);
    assert chain[..|chain|] == chain;
    states := ChainPasses(before, Order(chains, i - 1), middle, chain, |chain|, removeLinks, refused, st');
  }

  // ----- the order of the buckets

  predicate SameBucket(c: Call, b: Bucket) {
    c.typ == b.typ && c.hash == b.hash
  }

  /** The call `k` is the first for the bucket. */
  predicate IsFirst(calls: seq<Call>, k: nat, b: Bucket) {
    k < |calls| && SameBucket(calls[k], b) && forall j :: 0 <= j < k ==> !SameBucket(calls[j], b)
  }

  /** The chain `s` has the buckets of its calls, the one with the latest first call at the head. */
  ghost predicate LatestFirst(chain: seq<Bucket>, at: seq<nat>, calls: seq<Call>, n: nat, s: nat)
    requires n <= |calls|
  {
    && |at| == |chain|
    && (forall i :: 0 <= i < |at| ==> at[i] < n && IsFirst(calls, at[i], chain[i]))
    && (forall i, j :: 0 <= i < j < |at| ==> at[i] > at[j])
    && forall k :: 0 <= k < n && (calls[k].typ + calls[k].hash) % 0x1_0000_0000 % 257 == s ==>
         exists i :: 0 <= i < |chain| && SameBucket(calls[k], chain[i])
  }

  predicate SameKeys(a: seq<Bucket>, b: seq<Bucket>) {
    |a| == |b| && forall i :: 0 <= i < |a| ==> Is(b[i], a[i].typ, a[i].hash)
  }

  lemma KeysKeep(a: seq<Bucket>, b: seq<Bucket>, at: seq<nat>, calls: seq<Call>, n: nat, s: nat)
    requires SameKeys(a, b) && n <= |calls| && LatestFirst(a, at, calls, n, s)
    ensures LatestFirst(b, at, calls, n, s)
  {
    forall i | 0 <= i < |at|
      ensures IsFirst(calls, at[i], b[i])
    {
      assert IsFirst(calls, at[i], a[i]);
    }
    forall k | 0 <= k < n && (calls[k].typ + calls[k].hash) % 0x1_0000_0000 % 257 == s
      ensures exists i :: 0 <= i < |b| && SameBucket(calls[k], b[i])
    {
      var i :| 0 <= i < |a| && SameBucket(calls[k], a[i]);
      assert SameBucket(calls[k], b[i]);
    }
  }

  lemma NewHead(chain: seq<Bucket>, at: seq<nat>, calls: seq<Call>, n: nat, s: nat)
    requires n < |calls| && LatestFirst(chain, at, calls, n, s)
    requires Slot(calls[n].typ, calls[n].hash) == s && forall i :: 0 <= i < |chain| ==> !SameBucket(calls[n], chain[i])
    ensures LatestFirst([EmptyBucket(calls[n].typ, calls[n].hash)] + chain, [n] + at, calls, n + 1, s)
  {
    var head := EmptyBucket(calls[n].typ, calls[n].hash);
    var chain' := [head] + chain;
    assert IsFirst(calls, n, head);
    forall k | 0 <= k < n + 1 && (calls[k].typ + calls[k].hash) % 0x1_0000_0000 % 257 == s
      ensures exists i :: 0 <= i < |chain'| && SameBucket(calls[k], chain'[i])
    {
      if k < n {
        var i :| 0 <= i < |chain| && SameBucket(calls[k], chain[i]);
        assert SameBucket(calls[k], chain'[i + 1]);
      } else {
        assert SameBucket(calls[k], chain'[0]);
      }
    }
  }

  lemma OldHead(chain: seq<Bucket>, at: seq<nat>, calls: seq<Call>, n: nat, s: nat)
    requires n < |calls| && LatestFirst(chain, at, calls, n, s)
    requires Slot(calls[n].typ, calls[n].hash) != s || exists i :: 0 <= i < |chain| && SameBucket(calls[n], chain[i])
    ensures LatestFirst(chain, at, calls, n + 1, s)
  {
  }

  lemma {:induction false} ChainNext(chain: seq<Bucket>, at0: seq<nat>, calls: seq<Call>, n: nat, s: nat)
    returns (at: seq<nat>)
    requires n < |calls| && LatestFirst(chain, at0, calls, n, s) && Slot(calls[n].typ, calls[n].hash) == s
    ensures LatestFirst(ChainAdd(chain, calls[n]), at, calls, n + 1, s)
  {
    var c := calls[n];
    at := OpenedNext(chain, at0, calls, n, s);
    AddKeepsKeys(chain, c);
    KeysKeep(Opened(chain, c.typ, c.hash), ChainAdd(chain, c), at, calls, n + 1, s);
  }

  lemma {:induction false} OpenedNext(chain: seq<Bucket>, at0: seq<nat>, calls: seq<Call>, n: nat, s: nat)
    returns (at: seq<nat>)
    requires n < |calls| && LatestFirst(chain, at0, calls, n, s) && Slot(calls[n].typ, calls[n].hash) == s
    ensures LatestFirst(Opened(chain, calls[n].typ, calls[n].hash), at, calls, n + 1, s)
  {
    var c := calls[n];
    var i := FindBucket(chain, c.typ, c.hash);
    if i < |chain| {
      at := at0;
      assert SameBucket(c, chain[i]);
      OldHead(chain, at0, calls, n, s);
    } else {
      at := [n] + at0;
      NewHead(chain, at0, calls, n, s);
    }
  }

  lemma {:induction false} AddKeepsKeys(chain: seq<Bucket>, c: Call)
    ensures SameKeys(Opened(chain, c.typ, c.hash), ChainAdd(chain, c))
  {
  }

  /** In every chain the bucket with the latest first call is the head, and so the first that the pass takes. */
  lemma {:induction false} ChainOrder(calls: seq<Call>, n: nat, s: nat) returns (at: seq<nat>)
    requires n <= |calls| && s < TABLE_SIZE
    ensures LatestFirst(TableAfter(calls, n)[s], at, calls, n, s)
  {
    if n == 0 {
      return [];
    }
    at := ChainOrder(calls, n - 1, s);
    var chain, c := TableAfter(calls, n - 1)[s], calls[n - 1];
    if Slot(c.typ, c.hash) == s {
      at := ChainNext(chain, at, calls, n - 1, s);
    } else {
      OldHead(chain, at, calls, n - 1, s);
    }
  }
}
