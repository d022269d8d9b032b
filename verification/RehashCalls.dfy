/**
 What the calls of `add_entry` record, told by the entries and the calls themselves: which calls are
 recorded, what each of them changes, and what stands in a bucket after every run.
 */
module RehashCalls {
  import opened Common
  import opened RehashTable

  /** The file has an entry. */
  predicate Known(b: Bucket, filename: string) {
    exists i :: 0 <= i < |b.entries| && b.entries[i].filename == filename
  }

  /** An entry has the digest of the call. */
  predicate DigestKnown(b: Bucket, c: Call) {
    c.digest.Some? && exists i :: 0 <= i < |b.entries| && b.entries[i].digest == c.digest.value
  }

  /** There is an entry for the file, or room for a new one. */
  predicate HasRoom(b: Bucket, c: Call) {
    Known(b, c.filename) || b.numNeeded < 256
  }

  /** A call is skipped for its digest, refused for lack of room, or recorded; in no other case. */
  lemma OutcomeExactly(b: Bucket, c: Call)
    ensures var o := Add(b, c).1;
      && (o == Duplicate <==> DigestKnown(b, c))
      && (o == Overflow <==> !DigestKnown(b, c) && !HasRoom(b, c))
      && (o == Recorded <==> !DigestKnown(b, c) && HasRoom(b, c))
  {
    var i := FindName(b.entries, c.filename);
    assert i < |b.entries| ==> b.entries[i].filename == c.filename;
  }

  /** The entry `e` of the file of the call, once the call is recorded. */
  predicate Merged(e: HEntry, c: Call, e': HEntry) {
    && e'.filename == e.filename
    && e'.oldId <= e.oldId && e'.oldId <= c.oldId && (e'.oldId == e.oldId || e'.oldId == c.oldId)
    && (e'.needed <==> e.needed || c.need)
    && (e.needed || !c.need ==> e'.digest == e.digest)
    && (!e.needed && c.need && c.digest.Some? ==> e'.digest == c.digest.value)
  }

  /** The first entry of a file that had none. */
  predicate Fresh(c: Call, e: HEntry) {
    && e.filename == c.filename && e.oldId == c.oldId && (e.needed <==> c.need)
    && (c.need && c.digest.Some? ==> e.digest == c.digest.value)
    && (!c.need ==> |e.digest| == 20 && forall k :: 0 <= k < 20 ==> e.digest[k] == 0)
  }

  /** A call that is not recorded changes nothing. One that is changes the entry of its file, or appends one. */
  lemma AddExactly(b: Bucket, c: Call)
    requires DistinctNames(b.entries)
    ensures var (b', o) := Add(b, c);
      && b'.typ == b.typ && b'.hash == b.hash && (o != Recorded ==> b' == b)
      && (o == Recorded ==>
            && |b'.entries| == |b.entries| + (if Known(b, c.filename) then 0 else 1)
            && (forall i :: 0 <= i < |b.entries| && b.entries[i].filename != c.filename ==>
                  b'.entries[i] == b.entries[i])
            && (forall i :: 0 <= i < |b.entries| && b.entries[i].filename == c.filename ==>
                  Merged(b.entries[i], c, b'.entries[i]))
            && (!Known(b, c.filename) ==> Fresh(c, b'.entries[|b.entries|])))
  {
    var i, n := FindName(b.entries, c.filename), |b.entries|;
    if i < n {
      assert b.entries[i].filename == c.filename;
      assert forall j :: 0 <= j < n && j != i ==> b.entries[j].filename != c.filename;
    }
  }

  // ----- over a run

  /** The call is about this bucket. */
  predicate About(c: Call, b: Bucket) {
    c.typ == b.typ && c.hash == b.hash
  }

  /** The file has an entry with at most this number, and one that needs a link if `need` holds. */
  predicate Stands(entries: seq<HEntry>, filename: string, id: int, need: bool) {
    exists i :: 0 <= i < |entries| && entries[i].filename == filename && entries[i].oldId <= id
                && (need ==> entries[i].needed)
  }

  lemma StandsOn(b: Bucket, c: Call, filename: string, id: int, need: bool)
    requires DistinctNames(b.entries) && Stands(b.entries, filename, id, need)
    ensures Stands(Add(b, c).0.entries, filename, id, need)
  {
    var i :| 0 <= i < |b.entries| && b.entries[i].filename == filename && b.entries[i].oldId <= id
             && (need ==> b.entries[i].needed);
    AddExactly(b, c);
    assert Add(b, c).0.entries[i].filename == filename;
  }

  lemma StandsFirst(b: Bucket, c: Call)
    requires DistinctNames(b.entries) && !DigestKnown(b, c) && HasRoom(b, c)
    ensures Stands(Add(b, c).0.entries, c.filename, c.oldId, c.need)
  {
    OutcomeExactly(b, c);
    AddExactly(b, c);
    var now := Add(b, c).0.entries;
    if Known(b, c.filename) {
      var i :| 0 <= i < |b.entries| && b.entries[i].filename == c.filename;
      assert Merged(b.entries[i], c, now[i]);
    } else {
      assert Fresh(c, now[|b.entries|]);
    }
  }

  /**
   Over every run, a call whose digest, if it has one, is new to the bucket, and whose file has an entry
   or room for one, leaves its mark: at the end the file has an entry with at most the number of that
   call, and one that needs a link if the call says so.
   */
  lemma {:induction false} CallRecorded(empty: Bucket, calls: seq<Call>, k: nat, n: nat)
    requires k < n <= |calls| && empty == EmptyBucket(empty.typ, empty.hash)
    requires forall j :: 0 <= j < n ==> ValidCall(calls[j])
    requires var b := RunBucket(empty, calls, k);
      About(calls[k], empty) && !DigestKnown(b, calls[k]) && HasRoom(b, calls[k])
    ensures Stands(RunBucket(empty, calls, n).entries, calls[k].filename, calls[k].oldId, calls[k].need)
    decreases n
  {
    var b, c := RunBucket(empty, calls, n - 1), calls[n - 1];
    RunKeepsBucket(empty, calls, n - 1);
    if k == n - 1 {
      StandsFirst(b, c);
    } else {
      CallRecorded(empty, calls, k, n - 1);
      if About(c, b) {
        StandsOn(b, c, calls[k].filename, calls[k].oldId, calls[k].need);
      }
    }
  }

  /** The entry goes back to the first `n` calls: its name, its number, and its digest if it needs a link. */
  predicate ComesFrom(e: HEntry, empty: Bucket, calls: seq<Call>, n: nat)
    requires n <= |calls|
  {
    && (exists k :: 0 <= k < n && About(calls[k], empty) && calls[k].filename == e.filename
                    && calls[k].oldId == e.oldId)
    && (e.needed ==>
          exists k :: 0 <= k < n && About(calls[k], empty) && calls[k].filename == e.filename && calls[k].need
                      && calls[k].digest == Some(e.digest))
  }

  lemma ComesFromMore(e: HEntry, empty: Bucket, calls: seq<Call>, n: nat)
    requires n < |calls| && ComesFrom(e, empty, calls, n)
    ensures ComesFrom(e, empty, calls, n + 1)
  {
  }

  lemma MergedComesFrom(e: HEntry, e': HEntry, empty: Bucket, calls: seq<Call>, n: nat)
    requires n < |calls| && ComesFrom(e, empty, calls, n) && Merged(e, calls[n], e') && ValidCall(calls[n])
    requires About(calls[n], empty) && calls[n].filename == e.filename
    ensures ComesFrom(e', empty, calls, n + 1)
  {
    ComesFromMore(e, empty, calls, n);
  }

  lemma AddedComesFrom(b: Bucket, empty: Bucket, calls: seq<Call>, n: nat, i: nat)
    requires n < |calls| && DistinctNames(b.entries) && About(calls[n], b) && About(calls[n], empty)
    requires ValidCall(calls[n]) && i < |Add(b, calls[n]).0.entries|
    requires i < |b.entries| ==> ComesFrom(b.entries[i], empty, calls, n)
    ensures ComesFrom(Add(b, calls[n]).0.entries[i], empty, calls, n + 1)
  {
    var c := calls[n];
    AddExactly(b, c);
    if i < |b.entries| {
      ComesFromMore(b.entries[i], empty, calls, n);
      if Add(b, c).1 == Recorded && b.entries[i].filename == c.filename {
        MergedComesFrom(b.entries[i], Add(b, c).0.entries[i], empty, calls, n);
      }
    }
  }

  /** After every run, nothing stands in a bucket that its calls did not say. */
  lemma {:induction false} EntriesComeFromCalls(empty: Bucket, calls: seq<Call>, n: nat, i: nat)
    requires n <= |calls| && empty == EmptyBucket(empty.typ, empty.hash)
    requires forall j :: 0 <= j < n ==> ValidCall(calls[j])
    requires i < |RunBucket(empty, calls, n).entries|
    ensures ComesFrom(RunBucket(empty, calls, n).entries[i], empty, calls, n)
  {
    if n > 0 {
      var b, c := RunBucket(empty, calls, n - 1), calls[n - 1];
      RunKeepsBucket(empty, calls, n - 1);
      if i < |b.entries| {
        EntriesComeFromCalls(empty, calls, n - 1, i);
      }
      if About(c, b) {
        AddedComesFrom(b, empty, calls, n - 1, i);
      } else {
        ComesFromMore(b.entries[i], empty, calls, n - 1);
      }
    }
  }

  // ----- errors

  /** The call `k` finds no entry of its file, no entry with its digest, and 256 files that need a link. */
  predicate RunsOver(calls: seq<Call>, k: nat)
    requires k < |calls|
  {
    var b := RunBucket(EmptyBucket(calls[k].typ, calls[k].hash), calls, k);
    !DigestKnown(b, calls[k]) && !Known(b, calls[k].filename) && b.numNeeded >= 256
  }

  function RunningOver(calls: seq<Call>, n: nat): set<nat>
    requires n <= |calls|
  {
    set k: nat | k < n && RunsOver(calls, k)
  }

  lemma OverflowExactly(calls: seq<Call>, k: nat)
    requires k < |calls|
    ensures var c := calls[k];
      OutcomeAt(EmptyBucket(c.typ, c.hash), calls, k) == Overflow <==> RunsOver(calls, k)
  {
    var c := calls[k];
    OutcomeExactly(RunBucket(EmptyBucket(c.typ, c.hash), calls, k), c);
  }

  lemma RunningNext(calls: seq<Call>, n: nat, before: set<nat>, now: set<nat>)
    requires n < |calls| && before == RunningOver(calls, n) && now == RunningOver(calls, n + 1)
    ensures |now| == |before| + if RunsOver(calls, n) then 1 else 0
  {
    assert now == before + if RunsOver(calls, n) then {n} else {};
  }

  /** One error for each such call, and none for any other. */
  lemma {:induction false} OverflowsCounted(calls: seq<Call>, n: nat)
    requires n <= |calls|
    ensures CountOverflows(calls, n) == |RunningOver(calls, n)|
  {
    if n == 0 {
      assert RunningOver(calls, 0) == {};
    } else {
      OverflowsCounted(calls, n - 1);
      OverflowExactly(calls, n - 1);
      RunningNext(calls, n - 1, RunningOver(calls, n - 1), RunningOver(calls, n));
    }
  }
}
