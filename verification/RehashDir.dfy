/**
 `rehash.c` from the calls of `add_entry` to the links in the directory: the table is filled, and
 then the pass of `do_dir` goes over every bucket of every chain with one bit mask for all.
 */
module RehashDir {
  import opened Common
  import opened RehashTable
  import opened RehashCalls
  import opened RehashNumbers
  import opened RehashLinks
  import opened RehashResult

  type Links = map<nat, string>

  /** The links of the directory, by type and hash. */
  class Directory {
    var links: map<(nat, nat), Links>

    constructor (present: map<(nat, nat), Links>)
      ensures links == present
    {
      links := present;
    }

    function LinksOf(typ: nat, hash: nat): Links
      reads this
    {
      LinksIn(links, typ, hash)
    }
  }

  function LinksIn(links: map<(nat, nat), Links>, typ: nat, hash: nat): Links {
    if (typ, hash) in links then links[(typ, hash)] else map[]
  }

  /** What the pass needs of a bucket for numbers without a gap. */
  predicate Ready(b: Bucket) {
    b.numNeeded == CountNeeded(b.entries) <= MAX_COLLISIONS && GoodIds(b.entries, b.numNeeded)
  }

  /** The pass over this bucket made `now` of the links `was`; with `clean`, without an error. */
  ghost predicate Done(b: Bucket, was: Links, now: Links, removeLinks: bool, clean: bool) {
    exists used: set<nat>, refused: Refusals :: DoneWith(b, was, now, removeLinks, clean, used, refused)
  }

  ghost predicate DoneWith(
    b: Bucket, was: Links, now: Links, removeLinks: bool, clean: bool, used: set<nat>, refused: Refusals) {
    var (links, errs) := LinksAfter(b.entries, |b.entries|, b.numNeeded, used, removeLinks, refused, was);
    && UsedOk(b.entries, b.numNeeded, used) && Enough(b.entries, b.numNeeded, used)
    && links == now && (clean ==> errs == 0)
  }

  lemma EmptyDone(b: Bucket, was: Links, removeLinks: bool)
    requires b.entries == []
    ensures Done(b, was, was, removeLinks, true)
  {
    assert DoneWith(b, was, was, removeLinks, true, {}, Refusals(_ => false, _ => false));
  }

  lemma DoneLess(b: Bucket, was: Links, now: Links, removeLinks: bool, clean: bool, clean': bool)
    requires Done(b, was, now, removeLinks, clean) && (clean' ==> clean)
    ensures Done(b, was, now, removeLinks, clean')
  {
    var used, refused :| DoneWith(b, was, now, removeLinks, clean, used, refused);
    assert DoneWith(b, was, now, removeLinks, clean', used, refused);
  }

  // ----- the pass over the table, bucket by bucket

  /** The links of the directory, the numbers that the mask shows, and the refused calls so far. */
  datatype State = State(links: map<(nat, nat), Links>, mask: set<nat>, errs: nat)

  /** One bucket; none when it takes the pass out of the mask. */
  ghost function PassBucket(st: State, b: Bucket, removeLinks: bool, refused: Refusals): Option<State> {
    if !FitsMask(b, st.mask) then None
    else
      var used := MaskUsed(b.entries, b.numNeeded, st.mask);
      var was := LinksIn(st.links, b.typ, b.hash);
      var (links, errs) := LinksAfter(b.entries, |b.entries|, b.numNeeded, used, removeLinks, refused, was);
      Some(State(st.links[(b.typ, b.hash) := links], MaskAfter(b.entries, b.numNeeded, used), st.errs + errs))
  }

  /** The first `k` buckets of a chain. */
  ghost function PassChain(st: State, chain: seq<Bucket>, k: nat, removeLinks: bool, refused: (nat, nat) -> Refusals)
    : Option<State>
    requires k <= |chain|
  {
    if k == 0 then Some(st)
    else
      var before, b := PassChain(st, chain, k - 1, removeLinks, refused), chain[k - 1];
      if before.None? then None else PassBucket(before.value, b, removeLinks, refused(b.typ, b.hash))
  }

  /** The first `i` chains. */
  ghost function PassTable(st: State, chains: seq<seq<Bucket>>, i: nat, removeLinks: bool,
                           refused: (nat, nat) -> Refusals): Option<State>
    requires i <= |chains|
  {
    if i == 0 then Some(st)
    else
      var before, chain := PassTable(st, chains, i - 1, removeLinks, refused), chains[i - 1];
      if before.None? then None else PassChain(before.value, chain, |chain|, removeLinks, refused)
  }

  /** Once the pass has left the mask, it does not come back. */
  lemma {:induction false} ChainEnds(st: State, chain: seq<Bucket>, k: nat, m: nat, removeLinks: bool,
                                     refused: (nat, nat) -> Refusals)
    requires k <= m <= |chain| && PassChain(st, chain, k, removeLinks, refused).None?
    ensures PassChain(st, chain, m, removeLinks, refused).None?
  {
    if k < m {
      ChainEnds(st, chain, k, m - 1, removeLinks, refused);
    }
  }

  lemma {:induction false} TableEnds(st: State, chains: seq<seq<Bucket>>, i: nat, m: nat, removeLinks: bool,
                                     refused: (nat, nat) -> Refusals)
    requires i <= m <= |chains| && PassTable(st, chains, i, removeLinks, refused).None?
    ensures PassTable(st, chains, m, removeLinks, refused).None?
  {
    if i < m {
      TableEnds(st, chains, i, m - 1, removeLinks, refused);
    }
  }

  // ----- the pass as the program makes it

  /** The variables of the program are in this state. */
  ghost predicate InState(st: State, dir: Directory, idmask: array<bv8>, errs: nat)
    reads dir, idmask
  {
    st.links == dir.links && MaskShows(idmask[..], st.mask) && st.errs == errs
  }

  /** One bucket, in its part of the directory. */
  method PlaceBucket(dir: Directory, b: Bucket, idmask: array<bv8>, removeLinks: bool, refused: Refusals, errs0: nat,
                     ghost st: State) returns (errs: Option<nat>)
    requires InState(st, dir, idmask, errs0)
    modifies dir, idmask
    ensures errs.Some? <==> PassBucket(st, b, removeLinks, refused).Some?
    ensures errs.Some? ==> InState(PassBucket(st, b, removeLinks, refused).value, dir, idmask, errs.value)
  {
    var part := new LinkDir(dir.LinksOf(b.typ, b.hash));
    var more := PlaceLinks(b, idmask, part, removeLinks, refused, st.mask);
    if more.None? {
      return None;
    }
    dir.links := dir.links[(b.typ, b.hash) := part.links];
    errs := Some(errs0 + more.value);
  }

  /** The inner loop: one chain. */
  method PlaceChain(dir: Directory, chain: seq<Bucket>, idmask: array<bv8>, removeLinks: bool,
                    refused: (nat, nat) -> Refusals, errs0: nat, ghost st: State) returns (errs: Option<nat>)
    requires InState(st, dir, idmask, errs0)
    modifies dir, idmask
    ensures errs.Some? <==> PassChain(st, chain, |chain|, removeLinks, refused).Some?
    ensures errs.Some? ==>
      InState(PassChain(st, chain, |chain|, removeLinks, refused).value, dir, idmask, errs.value)
  {
    errs := Some(errs0);
    for k := 0 to |chain|
      invariant errs.Some? && PassChain(st, chain, k, removeLinks, refused).Some?
      invariant InState(PassChain(st, chain, k, removeLinks, refused).value, dir, idmask, errs.value)
    {
      var b := chain[k];
      ghost var before := PassChain(st, chain, k, removeLinks, refused).value;
      errs := PlaceBucket(dir, b, idmask, removeLinks, refused(b.typ, b.hash), errs.value, before);
      if errs.None? {
        ChainEnds(st, chain, k + 1, |chain|, removeLinks, refused);
        return;
      }
    }
  }

  /** One turn of the outer loop. */
  method PlaceNext(ghost chains: seq<seq<Bucket>>, ghost i: nat, chain: seq<Bucket>, dir: Directory,
                   idmask: array<bv8>, removeLinks: bool, refused: (nat, nat) -> Refusals, errs0: nat, ghost st: State)
    returns (errs: Option<nat>)
    requires i < |chains| && chain == chains[i] && PassTable(st, chains, i, removeLinks, refused).Some?
    requires InState(PassTable(st, chains, i, removeLinks, refused).value, dir, idmask, errs0)
    modifies dir, idmask
    ensures errs.Some? <==> PassTable(st, chains, i + 1, removeLinks, refused).Some?
    ensures errs.Some? ==>
      InState(PassTable(st, chains, i + 1, removeLinks, refused).value, dir, idmask, errs.value)
  {
    ghost var before := PassTable(st, chains, i, removeLinks, refused).value;
    errs := PlaceChain(dir, chain, idmask, removeLinks, refused, errs0, before);
  }

  /** The outer loop, over the table `chains`; each chain is taken away when it is done. */
  method PlaceChains(table: HashTable, ghost chains: seq<seq<Bucket>>, dir: Directory, idmask: array<bv8>,
                     removeLinks: bool, refused: (nat, nat) -> Refusals, ghost st: State) returns (errs: Option<nat>)
    requires table.Valid() && table.chains[..] == chains && |chains| == TABLE_SIZE && InState(st, dir, idmask, 0)
    modifies table.chains, dir, idmask
    ensures errs.Some? <==> PassTable(st, chains, |chains|, removeLinks, refused).Some?
    ensures errs.Some? ==>
      && InState(PassTable(st, chains, |chains|, removeLinks, refused).value, dir, idmask, errs.value)
      && forall s :: 0 <= s < TABLE_SIZE ==> table.chains[s] == []
  {
    errs := Some(0);
    for i := 0 to TABLE_SIZE
      invariant forall s :: 0 <= s < TABLE_SIZE ==> table.chains[s] == if s < i then [] else chains[s]
      invariant errs.Some? && PassTable(st, chains, i, removeLinks, refused).Some?
      invariant InState(PassTable(st, chains, i, removeLinks, refused).value, dir, idmask, errs.value)
    {
      errs := PlaceNext(chains, i, table.chains[i], dir, idmask, removeLinks, refused, errs.value, st);
      if errs.None? {
        TableEnds(st, chains, i + 1, |chains|, removeLinks, refused);
        return;
      }
      table.chains[i] := [];
    }
  }

  /**
   The part of `do_dir` behind the reading of the directory. None: some bucket takes the pass out of
   the mask. Otherwise the links and errors are those of the pass, and the table is empty.
   */
  method PlaceAll(table: HashTable, dir: Directory, idmask: array<bv8>, removeLinks: bool,
                  refused: (nat, nat) -> Refusals)
    returns (errs: Option<nat>)
    requires table.Valid() && idmask.Length == MAX_COLLISIONS / 8
    modifies table.chains, dir, idmask
    ensures var st, chains := State(old(dir.links), Shown(old(idmask[..])), 0), old(table.chains[..]);
      var pass := PassTable(st, chains, |chains|, removeLinks, refused);
      && (errs.Some? <==> pass.Some?)
      && (errs.Some? ==> InState(pass.value, dir, idmask, errs.value) && table.chains[..] == EmptyTable())
  {
    ghost var st := State(dir.links, Shown(idmask[..]), 0);
    errs := PlaceChains(table, table.chains[..], dir, idmask, removeLinks, refused, st);
  }

  // ----- what the pass means for each bucket

  lemma PassedBucket(st: State, b: Bucket, removeLinks: bool, refused: Refusals)
    requires PassBucket(st, b, removeLinks, refused).Some?
    ensures var st' := PassBucket(st, b, removeLinks, refused).value;
      && Done(b, LinksIn(st.links, b.typ, b.hash), LinksIn(st'.links, b.typ, b.hash), removeLinks, st'.errs == 0)
      && st'.errs >= st.errs
      && forall t: nat, h: nat :: (t, h) != (b.typ, b.hash) ==> LinksIn(st'.links, t, h) == LinksIn(st.links, t, h)
  {
    var st', used := PassBucket(st, b, removeLinks, refused).value, MaskUsed(b.entries, b.numNeeded, st.mask);
    MaskUsedOk(b.entries, b.numNeeded, st.mask);
    assert DoneWith(b, LinksIn(st.links, b.typ, b.hash), LinksIn(st'.links, b.typ, b.hash), removeLinks, st'.errs == 0,
                    used, refused);
  }

  /** From `a` to `b` the links of this type and hash are the same, and no error is forgotten. */
  predicate Untouched(a: State, b: State, t: nat, h: nat) {
    LinksIn(b.links, t, h) == LinksIn(a.links, t, h) && b.errs >= a.errs
  }

  /** The buckets of a chain from the `k`-th to the `m`-th, when none is that of the type and hash. */
  lemma {:induction false} ChainKeeps(
    st: State, chain: seq<Bucket>, k: nat, m: nat, t: nat, h: nat, removeLinks: bool, refused: (nat, nat) -> Refusals)
    requires k <= m <= |chain| && forall j :: k <= j < m ==> !Is(chain[j], t, h)
    requires PassChain(st, chain, m, removeLinks, refused).Some?
    ensures var a, b := PassChain(st, chain, k, removeLinks, refused), PassChain(st, chain, m, removeLinks, refused);
      a.Some? && Untouched(a.value, b.value, t, h)
  {
    if k < m {
      ChainKeeps(st, chain, k, m - 1, t, h, removeLinks, refused);
    }
  }

  /** Another chain than that of the type and hash. */
  lemma {:induction false} ChainForeign(st: State, st': State, chain: seq<Bucket>, slot: nat, t: nat, h: nat,
                                        removeLinks: bool, refused: (nat, nat) -> Refusals)
    requires ChainOk(chain, slot) && slot != Slot(t, h)
    requires PassChain(st, chain, |chain|, removeLinks, refused) == Some(st')
    ensures Untouched(st, st', t, h)
  {
    assert forall j :: 0 <= j < |chain| ==> !Is(chain[j], t, h);
    ChainKeeps(st, chain, 0, |chain|, t, h, removeLinks, refused);
  }

  /** All chains from the `i`-th to the `m`-th, when none is that of the type and hash. */
  lemma {:induction false} TableKeeps(st: State, chains: seq<seq<Bucket>>, i: nat, m: nat, st': State, t: nat, h: nat,
                                      removeLinks: bool, refused: (nat, nat) -> Refusals)
    requires TableOk(chains) && i <= m <= |chains| && (Slot(t, h) < i || m <= Slot(t, h))
    requires PassTable(st, chains, m, removeLinks, refused) == Some(st')
    ensures var a := PassTable(st, chains, i, removeLinks, refused); a.Some? && Untouched(a.value, st', t, h)
  {
    if i < m {
      var before := PassTable(st, chains, m - 1, removeLinks, refused).value;
      TableKeeps(st, chains, i, m - 1, before, t, h, removeLinks, refused);
      ChainForeign(before, st', chains[m - 1], m - 1, t, h, removeLinks, refused);
    }
  }

  /** The states before and after the chain of a type and hash. */
  lemma OwnChain(st: State, chains: seq<seq<Bucket>>, t: nat, h: nat, removeLinks: bool,
                 refused: (nat, nat) -> Refusals) returns (before: State, after: State)
    requires TableOk(chains) && PassTable(st, chains, |chains|, removeLinks, refused).Some?
    ensures var chain := chains[Slot(t, h)]; PassChain(before, chain, |chain|, removeLinks, refused) == Some(after)
    ensures Untouched(st, before, t, h)
    ensures Untouched(after, PassTable(st, chains, |chains|, removeLinks, refused).value, t, h)
  {
    var s := Slot(t, h);
    var st' := PassTable(st, chains, |chains|, removeLinks, refused).value;
    TableKeeps(st, chains, s + 1, |chains|, st', t, h, removeLinks, refused);
    before := PassTable(st, chains, s, removeLinks, refused).value;
    after := PassTable(st, chains, s + 1, removeLinks, refused).value;
    TableKeeps(st, chains, 0, s, before, t, h, removeLinks, refused);
  }

  /** Within its chain, a bucket is passed once; before and after its turn its links stay. */
  lemma OwnTurn(st: State, chain: seq<Bucket>, slot: nat, at: nat, removeLinks: bool, refused: (nat, nat) -> Refusals)
    returns (before: State, after: State)
    requires ChainOk(chain, slot) && at < |chain| && PassChain(st, chain, |chain|, removeLinks, refused).Some?
    ensures var b := chain[at];
      && PassBucket(before, b, removeLinks, refused(b.typ, b.hash)) == Some(after)
      && Untouched(st, before, b.typ, b.hash)
      && Untouched(after, PassChain(st, chain, |chain|, removeLinks, refused).value, b.typ, b.hash)
  {
    var b := chain[at];
    ChainKeeps(st, chain, at + 1, |chain|, b.typ, b.hash, removeLinks, refused);
    ChainKeeps(st, chain, 0, at, b.typ, b.hash, removeLinks, refused);
    before := PassChain(st, chain, at, removeLinks, refused).value;
    after := PassChain(st, chain, at + 1, removeLinks, refused).value;
  }

  /** A pass that stays within the mask does every bucket, and a pass without an error without one. */
  lemma {:induction false} TableDone(st: State, chains: seq<seq<Bucket>>, t: nat, h: nat, removeLinks: bool,
                                     refused: (nat, nat) -> Refusals)
    requires TableOk(chains) && PassTable(st, chains, |chains|, removeLinks, refused).Some?
    ensures var st' := PassTable(st, chains, |chains|, removeLinks, refused).value;
      Done(BucketIn(chains, t, h), LinksIn(st.links, t, h), LinksIn(st'.links, t, h), removeLinks, st'.errs == 0)
  {
    var st' := PassTable(st, chains, |chains|, removeLinks, refused).value;
    var before, after := OwnChain(st, chains, t, h, removeLinks, refused);
    ChainDone(before, chains[Slot(t, h)], Slot(t, h), t, h, removeLinks, refused);
    DoneLess(BucketIn(chains, t, h), LinksIn(st.links, t, h), LinksIn(st'.links, t, h), removeLinks, after.errs == 0,
             st'.errs == 0);
  }

  lemma {:induction false} ChainDone(st: State, chain: seq<Bucket>, slot: nat, t: nat, h: nat, removeLinks: bool,
                                     refused: (nat, nat) -> Refusals)
    requires ChainOk(chain, slot) && PassChain(st, chain, |chain|, removeLinks, refused).Some?
    ensures var st' := PassChain(st, chain, |chain|, removeLinks, refused).value;
      Done(InChain(chain, t, h), LinksIn(st.links, t, h), LinksIn(st'.links, t, h), removeLinks, st'.errs == 0)
  {
    var st' := PassChain(st, chain, |chain|, removeLinks, refused).value;
    var b, was, at := InChain(chain, t, h), LinksIn(st.links, t, h), FindBucket(chain, t, h);
    if at < |chain| {
      var before, after := OwnTurn(st, chain, slot, at, removeLinks, refused);
      PassedBucket(before, b, removeLinks, refused(t, h));
      DoneLess(b, was, LinksIn(st'.links, t, h), removeLinks, after.errs == 0, st'.errs == 0);
    } else {
      ChainKeeps(st, chain, 0, |chain|, t, h, removeLinks, refused);
      EmptyDone(b, was, removeLinks);
      DoneLess(b, was, was, removeLinks, true, st'.errs == 0);
    }
  }

  // ----- when the pass stays within the mask

  /** A bucket that is ready fits, whatever the buckets before it left. */
  lemma ReadyFits(b: Bucket, left: set<nat>)
    requires Ready(b)
    ensures FitsMask(b, left)
  {
    MaskUsedOk(b.entries, b.numNeeded, left);
    SupplyMeetsDemand(b.entries, b.numNeeded, MaskUsed(b.entries, b.numNeeded, left));
  }

  lemma {:induction false} ChainFits(st: State, chain: seq<Bucket>, k: nat, removeLinks: bool,
                                     refused: (nat, nat) -> Refusals)
    requires k <= |chain| && forall j :: 0 <= j < |chain| ==> Ready(chain[j])
    ensures PassChain(st, chain, k, removeLinks, refused).Some?
  {
    if k > 0 {
      ChainFits(st, chain, k - 1, removeLinks, refused);
      ReadyFits(chain[k - 1], PassChain(st, chain, k - 1, removeLinks, refused).value.mask);
    }
  }

  lemma {:induction false} TableFits(st: State, chains: seq<seq<Bucket>>, i: nat, removeLinks: bool,
                                     refused: (nat, nat) -> Refusals)
    requires TableOk(chains) && i <= TABLE_SIZE && forall t: nat, h: nat :: Ready(BucketIn(chains, t, h))
    ensures PassTable(st, chains, i, removeLinks, refused).Some?
  {
    if i > 0 {
      TableFits(st, chains, i - 1, removeLinks, refused);
      var chain := chains[i - 1];
      forall k | 0 <= k < |chain|
        ensures Ready(chain[k])
      {
        FindBucketAt(chain, chain[k].typ, chain[k].hash, k);
        assert chain[k] == BucketIn(chains, chain[k].typ, chain[k].hash);
      }
      ChainFits(PassTable(st, chains, i - 1, removeLinks, refused).value, chain, |chain|, removeLinks, refused);
    }
  }

  /** In a pass that stays within the mask, each bucket fits what is left when its turn comes. */
  lemma FitsInTurn(st: State, chains: seq<seq<Bucket>>, t: nat, h: nat, removeLinks: bool,
                   refused: (nat, nat) -> Refusals) returns (left: set<nat>)
    requires TableOk(chains) && BucketIn(chains, t, h).entries != []
    requires PassTable(st, chains, |chains|, removeLinks, refused).Some?
    ensures FitsMask(BucketIn(chains, t, h), left)
  {
    var chain := chains[Slot(t, h)];
    var before, after := OwnChain(st, chains, t, h, removeLinks, refused);
    before, after := OwnTurn(before, chain, Slot(t, h), FindBucket(chain, t, h), removeLinks, refused);
    left := before.mask;
  }

  /** A run of `rehash` that keeps the bound of 256 and leaves the mask, whatever that shows at first. */
  lemma {:induction false} CrowdLeavesMask(calls: seq<Call>, n: nat, st: State, removeLinks: bool,
                                           refused: (nat, nat) -> Refusals)
    requires IsCrowd(calls) && n == MAX_COLLISIONS
    ensures NoPromotion(EmptyBucket(0, 0), calls, n + 1)
    ensures var chains := TableAfter(calls, n + 1); PassTable(st, chains, |chains|, removeLinks, refused).None?
  {
    var chains, empty := TableAfter(calls, n + 1), EmptyBucket(0, 0);
    var b := RunBucket(empty, calls, n + 1);
    TableBuckets(calls, n + 1);
    CrowdRun(calls, empty, n);
    MaskUsedOk(b.entries, n, {});
    CrowdFillsMask(calls, empty, n, b, MaskUsed(b.entries, n, {}));
    if PassTable(st, chains, |chains|, removeLinks, refused).Some? {
      var left := FitsInTurn(st, chains, 0, 0, removeLinks, refused);
      MaskUsedOk(b.entries, n, left);
      CrowdFillsMask(calls, empty, n, b, MaskUsed(b.entries, n, left));
    }
  }

  // ----- from the calls to the links

  /** The calls with a link number report links of the directory. */
  predicate DirectoryMatches(calls: seq<Call>, links: map<(nat, nat), Links>) {
    forall k :: 0 <= k < |calls| && calls[k].oldId < NO_ID ==>
      var part := LinksIn(links, calls[k].typ, calls[k].hash);
      calls[k].oldId as nat in part && part[calls[k].oldId as nat] == calls[k].filename
  }

  /** No file that needs no link has one with a number below the count of the needed files. */
  predicate NoIdleLinks(b: Bucket) {
    forall i :: 0 <= i < |b.entries| && Kept(b.entries[i], b.numNeeded) ==> b.entries[i].needed
  }

  function Collected(calls: seq<Call>, typ: nat, hash: nat): Bucket {
    RunBucket(EmptyBucket(typ, hash), calls, |calls|)
  }

  /** An entry's old number is that of a link of the directory. */
  lemma OldNumberIsLink(calls: seq<Call>, links: map<(nat, nat), Links>, typ: nat, hash: nat, i: nat)
    requires (forall k :: 0 <= k < |calls| ==> ValidCall(calls[k])) && DirectoryMatches(calls, links)
    requires var b := Collected(calls, typ, hash); i < |b.entries| && b.entries[i].oldId < NO_ID
    ensures var e, part := Collected(calls, typ, hash).entries[i], LinksIn(links, typ, hash);
      e.oldId as nat in part && part[e.oldId as nat] == e.filename
  {
    var empty, e := EmptyBucket(typ, hash), Collected(calls, typ, hash).entries[i];
    RunKeepsBucket(empty, calls, |calls|);
    RunKeepsIds(empty, calls, |calls|, e.filename);
    FindNameAt(Collected(calls, typ, hash).entries, e.filename, i);
    LeastRecordedMeaning(empty, calls, |calls|, e.filename);
    assert e.oldId == LeastRecorded(empty, calls, |calls|, e.filename);
    var k :| 0 <= k < |calls| && calls[k].filename == e.filename && OutcomeAt(empty, calls, k) == Recorded
             && calls[k].oldId == e.oldId;
    assert calls[k].typ == typ && calls[k].hash == hash;
  }

  /** What is asked of a run: the bound is kept, and no idle link is in the way. */
  ghost predicate GoodRun(calls: seq<Call>, links: map<(nat, nat), Links>) {
    && (forall k :: 0 <= k < |calls| ==> ValidCall(calls[k])) && DirectoryMatches(calls, links)
    && forall t: nat, h: nat ::
         NoPromotion(EmptyBucket(t, h), calls, |calls|) && NoIdleLinks(Collected(calls, t, h))
  }

  /** Then every bucket is ready for the pass, and its kept links lead to their files. */
  lemma RunReady(calls: seq<Call>, links: map<(nat, nat), Links>, typ: nat, hash: nat)
    requires GoodRun(calls, links)
    ensures var b := Collected(calls, typ, hash);
      Ready(b) && KeptLead(b.entries, b.numNeeded, LinksIn(links, typ, hash))
  {
    var b := Collected(calls, typ, hash);
    RunKeepsBound(EmptyBucket(typ, hash), calls, |calls|);
    CountExact(EmptyBucket(typ, hash), calls, |calls|);
    RunKeepsBucket(EmptyBucket(typ, hash), calls, |calls|);
    forall i | 0 <= i < |b.entries| && Kept(b.entries[i], b.numNeeded)
      ensures var part := LinksIn(links, typ, hash);
        b.entries[i].oldId as nat in part && part[b.entries[i].oldId as nat] == b.entries[i].filename
      ensures Shared(b.entries, b.entries[i].oldId, b.numNeeded)
    {
      OldNumberIsLink(calls, links, typ, hash, i);
      assert NeededKept(b.entries[i], b.numNeeded);
    }
  }

  predicate LinkedBelow(links: Links, n: nat, filename: string) {
    exists id: nat :: id < n && id in links && links[id] == filename
  }

  predicate LinkOfNeeded(b: Bucket, links: Links, id: nat) {
    id in links && exists i :: 0 <= i < |b.entries| && b.entries[i].needed && b.entries[i].filename == links[id]
  }

  /** The numbers below the count of the needed files are links to them, and each of them is linked. */
  predicate FilesLinked(b: Bucket, links: Links) {
    && (forall i :: 0 <= i < |b.entries| && b.entries[i].needed ==>
          LinkedBelow(links, b.numNeeded, b.entries[i].filename))
    && forall id: nat :: id < b.numNeeded ==> LinkOfNeeded(b, links, id)
  }

  lemma DoneMeans(b: Bucket, was: Links, now: Links, removeLinks: bool)
    requires Ready(b) && KeptLead(b.entries, b.numNeeded, was) && Done(b, was, now, removeLinks, true)
    ensures FilesLinked(b, now)
  {
    var n: nat := b.numNeeded;
    var used, refused :| DoneWith(b, was, now, removeLinks, true, used, refused);
    SupplyMeetsDemand(b.entries, n, used);
    GoodIdsRemoveNothing(b.entries, n, used, removeLinks);
    AllLinkedExactly(b.entries, n, used, removeLinks, refused, was);
    GapFreeExactly(b.entries, n, used);
    forall i | 0 <= i < |b.entries| && b.entries[i].needed
      ensures LinkedBelow(now, n, b.entries[i].filename)
    {
      assert LinkedNow(b.entries, i, n, used, now);
      assert LinkOf(b.entries, i, n, used).value < n;
    }
    forall id: nat | id < n
      ensures LinkOfNeeded(b, now, id)
    {
      assert Owned(b.entries, id, n, used);
      var i :| 0 <= i < |b.entries| && b.entries[i].needed && LinkOf(b.entries, i, n, used) == Some(id);
      assert LinkedNow(b.entries, i, n, used, now);
    }
  }

  /**
   After a good run the pass stays within the mask, whatever it shows at first. Without an error every
   bucket's links 0 to n-1 lead to the files that need one, and each of these is linked.
   */
  lemma {:induction false} GoodRunLinked(calls: seq<Call>, st: State, removeLinks: bool,
                                         refused: (nat, nat) -> Refusals)
    requires GoodRun(calls, st.links)
    ensures var chains := TableAfter(calls, |calls|);
      var pass := PassTable(st, chains, |chains|, removeLinks, refused);
      && pass.Some?
      && (pass.value.errs == 0 ==>
            forall t: nat, h: nat :: FilesLinked(Collected(calls, t, h), LinksIn(pass.value.links, t, h)))
  {
    var chains := TableAfter(calls, |calls|);
    TableBuckets(calls, |calls|);
    forall t: nat, h: nat
      ensures Ready(BucketIn(chains, t, h))
    {
      RunReady(calls, st.links, t, h);
    }
    TableFits(st, chains, |chains|, removeLinks, refused);
    var st' := PassTable(st, chains, |chains|, removeLinks, refused).value;
    if st'.errs == 0 {
      forall t: nat, h: nat
        ensures FilesLinked(Collected(calls, t, h), LinksIn(st'.links, t, h))
      {
        RunReady(calls, st.links, t, h);
        TableDone(st, chains, t, h, removeLinks, refused);
        DoneMeans(Collected(calls, t, h), LinksIn(st.links, t, h), LinksIn(st'.links, t, h), removeLinks);
      }
    }
  }

  predicate LeadsBelow(was: Links, now: Links, id: int, filename: string) {
    exists j: nat :: j <= id && j in was && j in now && was[j] == filename && now[j] == filename
  }

  /** The call is recorded and has a number below the count that its bucket has at the end. */
  predicate ReportsLink(calls: seq<Call>, k: nat) {
    k < |calls| &&
    var c, b := calls[k], RunBucket(EmptyBucket(calls[k].typ, calls[k].hash), calls, k);
    !DigestKnown(b, c) && HasRoom(b, c) && c.oldId < Collected(calls, c.typ, c.hash).numNeeded
  }

  /** The file of the call is reached by a link that was there, under the number of the call or a smaller one. */
  predicate LinkStays(c: Call, was: map<(nat, nat), Links>, now: map<(nat, nat), Links>) {
    LeadsBelow(LinksIn(was, c.typ, c.hash), LinksIn(now, c.typ, c.hash), c.oldId, c.filename)
  }

  /**
   A link that a call reports under a number below the count of the needed files is not lost, whatever
   is refused.
   */
  lemma {:induction false} ReportedLinkStays(calls: seq<Call>, st: State, k: nat, removeLinks: bool,
                                             refused: (nat, nat) -> Refusals)
    requires GoodRun(calls, st.links) && ReportsLink(calls, k)
    ensures var chains := TableAfter(calls, |calls|);
      var pass := PassTable(st, chains, |chains|, removeLinks, refused);
      pass.Some? && LinkStays(calls[k], st.links, pass.value.links)
  {
    var t, h := calls[k].typ, calls[k].hash;
    var chains, b := TableAfter(calls, |calls|), Collected(calls, t, h);
    GoodRunLinked(calls, st, removeLinks, refused);
    TableBuckets(calls, |calls|);
    TableDone(st, chains, t, h, removeLinks, refused);
    var st' := PassTable(st, chains, |chains|, removeLinks, refused).value;
    CallRecorded(EmptyBucket(t, h), calls, k, |calls|);
    var i :| 0 <= i < |b.entries| && b.entries[i].filename == calls[k].filename && b.entries[i].oldId <= calls[k].oldId;
    OldNumberIsLink(calls, st.links, t, h, i);
    KeptLinkStays(b, i, LinksIn(st.links, t, h), LinksIn(st'.links, t, h), removeLinks, st'.errs == 0);
  }

  lemma {:induction false} AllReportedStay(calls: seq<Call>, st: State, removeLinks: bool,
                                           refused: (nat, nat) -> Refusals)
    requires GoodRun(calls, st.links)
    ensures var chains := TableAfter(calls, |calls|);
      var pass := PassTable(st, chains, |chains|, removeLinks, refused);
      pass.Some? && forall k: nat :: ReportsLink(calls, k) ==> LinkStays(calls[k], st.links, pass.value.links)
  {
    GoodRunLinked(calls, st, removeLinks, refused);
    forall k: nat | ReportsLink(calls, k)
      ensures var chains := TableAfter(calls, |calls|);
        LinkStays(calls[k], st.links, PassTable(st, chains, |chains|, removeLinks, refused).value.links)
    {
      ReportedLinkStays(calls, st, k, removeLinks, refused);
    }
  }

  lemma KeptLinkStays(b: Bucket, i: nat, was: Links, now: Links, removeLinks: bool, clean: bool)
    requires Done(b, was, now, removeLinks, clean) && i < |b.entries| && b.entries[i].oldId < b.numNeeded
    ensures SameLink(was, now, b.entries[i].oldId)
  {
    var used, refused :| DoneWith(b, was, now, removeLinks, clean, used, refused);
    assert b.entries[i].oldId in KeptIds(b.entries, b.numNeeded);
    KeptStays(b.entries, b.numNeeded, used, removeLinks, refused, was, b.entries[i].oldId);
  }

  /**
   The whole of `rehash`: calls, then links. The result, the links and the errors are those of the pass
   over the table that the calls make. After a good run no reported link is lost, and without an error
   all needed files are linked.
   */
  method Rehash(calls: seq<Call>, dir: Directory, idmask: array<bv8>, removeLinks: bool,
                refused: (nat, nat) -> Refusals)
    returns (errs: Option<nat>)
    requires idmask.Length == MAX_COLLISIONS / 8 && forall k :: 0 <= k < |calls| ==> ValidCall(calls[k])
    modifies dir, idmask
    ensures var st, chains := State(old(dir.links), Shown(old(idmask[..])), 0), TableAfter(calls, |calls|);
      var pass := PassTable(st, chains, |chains|, removeLinks, refused);
      && (errs.Some? <==> pass.Some?)
      && (errs.Some? ==>
            dir.links == pass.value.links && errs.value == CountOverflows(calls, |calls|) + pass.value.errs)
    ensures GoodRun(calls, old(dir.links)) ==> errs.Some?
    ensures GoodRun(calls, old(dir.links)) && errs == Some(0) ==>
      forall t: nat, h: nat :: FilesLinked(Collected(calls, t, h), dir.LinksOf(t, h))
    ensures GoodRun(calls, old(dir.links)) ==>
      forall k: nat :: ReportsLink(calls, k) ==> LinkStays(calls[k], old(dir.links), dir.links)
  {
    ghost var st := State(dir.links, Shown(idmask[..]), 0);
    if GoodRun(calls, st.links) {
      GoodRunLinked(calls, st, removeLinks, refused);
      AllReportedStay(calls, st, removeLinks, refused);
    }
    var table := new HashTable();
    var overflows := table.AddAll(calls);
    var more := PlaceAll(table, dir, idmask, removeLinks, refused);
    errs := if more.None? then None else Some(overflows + more.value);
  }
}
