/**
 The hash table of `rehash.c`: `add_entry` collects, for every (type, hash), the files that
 need a link and the links that already exist.
 */
module RehashTable {
  import opened Common

  const MAX_COLLISIONS := 256
  const TABLE_SIZE := 257
  const NO_ID := 65535

  /** A SHA-1 digest, the only kind that the program uses: 20 bytes. */
  type Digest = seq<byte>

  const NIL_DIGEST: Digest := [0, 0, 0, 0, 0, 0, 0, 0, 0, 0, 0, 0, 0, 0, 0, 0, 0, 0, 0, 0]

  type LinkId = x: int | 0 <= x <= NO_ID

  datatype HEntry = HEntry(filename: string, oldId: LinkId, needed: bool, digest: Digest)

  /** `numNeeded` is an `unsigned short`. */
  datatype Bucket = Bucket(typ: nat, hash: nat, entries: seq<HEntry>, numNeeded: LinkId)

  /** The arguments of one call of `add_entry`; a file that needs a link comes with its digest. */
  datatype Call = Call(typ: nat, hash: nat, filename: string, digest: Option<Digest>, need: bool, oldId: LinkId)

  predicate ValidCall(c: Call) {
    c.typ < 2 && c.hash < 0x1_0000_0000 && (c.need ==> c.digest.Some?)
  }

  /** `Elsewhere`: the call concerns another bucket. */
  datatype Outcome = Recorded | Duplicate | Overflow | Elsewhere

  // ----- one bucket

  function EmptyBucket(typ: nat, hash: nat): Bucket {
    Bucket(typ, hash, [], 0)
  }

  predicate HasDigest(entries: seq<HEntry>, n: nat, d: Option<Digest>)
    requires n <= |entries|
  {
    d.Some? && exists k :: 0 <= k < n && entries[k].digest == d.value
  }

  function FindName(entries: seq<HEntry>, filename: string): (i: nat)
    ensures i <= |entries| && (i < |entries| ==> entries[i].filename == filename)
    ensures forall k :: 0 <= k < i ==> entries[k].filename != filename
  {
    if entries == [] || entries[0].filename == filename then 0 else 1 + FindName(entries[1..], filename)
  }

  function DigestOf(c: Call): Digest {
    if c.digest.Some? then c.digest.value else NIL_DIGEST
  }

  function Updated(e: HEntry, c: Call): HEntry
  {
    var least := if c.oldId < e.oldId then c.oldId else e.oldId;
    if c.need && !e.needed then e.(oldId := least, needed := true, digest := DigestOf(c)) else e.(oldId := least)
  }

  function UpdateAt(b: Bucket, i: nat, c: Call): Bucket
    requires i < |b.entries|
  {
    b.(entries := b.entries[i := Updated(b.entries[i], c)],
       numNeeded := if c.need && !b.entries[i].needed then (b.numNeeded + 1) % (NO_ID + 1) else b.numNeeded)
  }

  function NewEntry(filename: string): HEntry {
    HEntry(filename, NO_ID, false, NIL_DIGEST)
  }

  /** What one call does to its bucket. */
  function Add(b: Bucket, c: Call): (Bucket, Outcome)
  {
    var i := FindName(b.entries, c.filename);
    if HasDigest(b.entries, |b.entries|, c.digest) then (b, Duplicate)
    else if i < |b.entries| then (UpdateAt(b, i, c), Recorded)
    else if b.numNeeded >= MAX_COLLISIONS then (b, Overflow)
    else (UpdateAt(b.(entries := b.entries + [NewEntry(c.filename)]), |b.entries|, c), Recorded)
  }

  function CountNeeded(entries: seq<HEntry>): nat {
    if entries == [] then 0
    else CountNeeded(entries[..|entries| - 1]) + if entries[|entries| - 1].needed then 1 else 0
  }

  predicate DistinctNames(entries: seq<HEntry>) {
    forall i, j :: 0 <= i < j < |entries| ==> entries[i].filename != entries[j].filename
  }

  predicate DistinctDigests(entries: seq<HEntry>) {
    forall i, j :: 0 <= i < j < |entries| && entries[i].needed && entries[j].needed ==>
      entries[i].digest != entries[j].digest
  }

  predicate BucketOk(b: Bucket) {
    && DistinctNames(b.entries) && DistinctDigests(b.entries)
    && b.numNeeded == CountNeeded(b.entries) % (NO_ID + 1)
  }

  lemma {:induction false} CountUpdate(entries: seq<HEntry>, i: nat, e: HEntry)
    requires i < |entries|
    ensures CountNeeded(entries[i := e]) + (if entries[i].needed then 1 else 0)
      == CountNeeded(entries) + (if e.needed then 1 else 0)
  {
    var n := |entries| - 1;
    if i < n {
      CountUpdate(entries[..n], i, e);
      assert entries[i := e][..n] == entries[..n][i := e];
    } else {
      assert entries[i := e][..n] == entries[..n];
    }
  }

  /** The digest of this call is not that of a needed file. */
  predicate NewDigest(entries: seq<HEntry>, c: Call) {
    forall k :: 0 <= k < |entries| && entries[k].needed ==> entries[k].digest != DigestOf(c)
  }

  lemma UpdateKeepsBucket(b: Bucket, i: nat, c: Call)
    requires i < |b.entries| && BucketOk(b) && (c.need ==> NewDigest(b.entries, c))
    ensures BucketOk(UpdateAt(b, i, c))
  {
    var e := Updated(b.entries[i], c);
    CountUpdate(b.entries, i, e);
    UpdateKeepsDigests(b.entries, i, c);
  }

  lemma UpdateKeepsDigests(entries: seq<HEntry>, i: nat, c: Call)
    requires i < |entries| && DistinctDigests(entries) && (c.need ==> NewDigest(entries, c))
    ensures DistinctDigests(entries[i := Updated(entries[i], c)])
  {
  }

  /** Filenames stay distinct, digests of needed files stay different, `numNeeded` stays their number. */
  lemma AddKeepsBucket(b: Bucket, c: Call)
    requires BucketOk(b) && (c.need ==> c.digest.Some?)
    ensures BucketOk(Add(b, c).0)
  {
    var i, n := FindName(b.entries, c.filename), |b.entries|;
    if !HasDigest(b.entries, n, c.digest) && (i < n || b.numNeeded < MAX_COLLISIONS) {
      assert c.need ==> NewDigest(b.entries, c);
      if i < n {
        UpdateKeepsBucket(b, i, c);
      } else {
        AppendKeepsBucket(b, c);
        UpdateKeepsBucket(b.(entries := b.entries + [NewEntry(c.filename)]), n, c);
      }
    }
  }

  lemma AppendKeepsBucket(b: Bucket, c: Call)
    requires BucketOk(b) && FindName(b.entries, c.filename) == |b.entries| && (c.need ==> NewDigest(b.entries, c))
    ensures var more := b.(entries := b.entries + [NewEntry(c.filename)]);
      BucketOk(more) && (c.need ==> NewDigest(more.entries, c))
  {
    assert (b.entries + [NewEntry(c.filename)])[..|b.entries|] == b.entries;
  }

  /** The call promotes a link's entry of a full bucket to one that needs a link. */
  predicate Promotes(b: Bucket, c: Call) {
    var i := FindName(b.entries, c.filename);
    b.numNeeded == MAX_COLLISIONS && c.need && i < |b.entries| && !b.entries[i].needed
    && !HasDigest(b.entries, |b.entries|, c.digest)
  }

  /** The bound on collisions is kept exactly when the call does not promote an entry of a full bucket. */
  lemma AddKeepsBound(b: Bucket, c: Call)
    requires b.numNeeded <= MAX_COLLISIONS
    ensures Add(b, c).0.numNeeded <= MAX_COLLISIONS <==> !Promotes(b, c)
  {
  }

  /** The bytes of the mask of used numbers that are cleared for a bucket with `n` needed files. */
  function MaskBytes(n: nat): nat {
    (n + 7) / 8
  }

  /** They are bytes of the mask, which has 32, exactly up to 256 needed files. */
  lemma MaskBytesFit(n: nat)
    ensures MaskBytes(n) <= MAX_COLLISIONS / 8 <==> n <= MAX_COLLISIONS
  {
  }

  // ----- runs of calls, seen from one bucket

  function Visit(b: Bucket, c: Call): (Bucket, Outcome) {
    if c.typ == b.typ && c.hash == b.hash then Add(b, c) else (b, Elsewhere)
  }

  /** The bucket that starts as `empty`, after the first `n` calls. */
  function RunBucket(empty: Bucket, calls: seq<Call>, n: nat): (b: Bucket)
    requires n <= |calls|
    ensures b.typ == empty.typ && b.hash == empty.hash
  {
    if n == 0 then empty else Visit(RunBucket(empty, calls, n - 1), calls[n - 1]).0
  }

  function OutcomeAt(empty: Bucket, calls: seq<Call>, k: nat): Outcome
    requires k < |calls|
  {
    Visit(RunBucket(empty, calls, k), calls[k]).1
  }

  /** How many of the first `n` calls found no room in their bucket. */
  function CountOverflows(calls: seq<Call>, n: nat): nat
    requires n <= |calls|
  {
    if n == 0 then 0
    else
      var c := calls[n - 1];
      CountOverflows(calls, n - 1) + if OutcomeAt(EmptyBucket(c.typ, c.hash), calls, n - 1) == Overflow then 1 else 0
  }

  lemma CountNext(calls: seq<Call>, k: nat)
    requires k < |calls|
    ensures var c := calls[k];
      CountOverflows(calls, k + 1) ==
        CountOverflows(calls, k)
        + if Add(RunBucket(EmptyBucket(c.typ, c.hash), calls, k), c).1 == Overflow then 1 else 0
  {
  }

  /** The least link number recorded for a file by the first `n` calls, or 65535. */
  function LeastRecorded(empty: Bucket, calls: seq<Call>, n: nat, filename: string): LinkId
    requires n <= |calls|
  {
    if n == 0 then NO_ID
    else
      var m, c := LeastRecorded(empty, calls, n - 1, filename), calls[n - 1];
      if c.filename == filename && OutcomeAt(empty, calls, n - 1) == Recorded && c.oldId < m then c.oldId else m
  }

  /** `LeastRecorded` is a lower bound of the recorded numbers, and one of them unless it is 65535. */
  lemma {:induction false} LeastRecordedMeaning(empty: Bucket, calls: seq<Call>, n: nat, filename: string)
    requires n <= |calls|
    ensures var m := LeastRecorded(empty, calls, n, filename);
      && (forall k :: 0 <= k < n && calls[k].filename == filename && OutcomeAt(empty, calls, k) == Recorded ==>
            m <= calls[k].oldId)
      && (m == NO_ID ||
            exists k :: 0 <= k < n && calls[k].filename == filename && OutcomeAt(empty, calls, k) == Recorded
                        && calls[k].oldId == m)
  {
    if n > 0 {
      LeastRecordedMeaning(empty, calls, n - 1, filename);
    }
  }

  /** A file without an entry has no recorded link number. */
  predicate IdsOk(b: Bucket, empty: Bucket, calls: seq<Call>, n: nat, filename: string)
    requires n <= |calls|
  {
    var i := FindName(b.entries, filename);
    LeastRecorded(empty, calls, n, filename) == if i < |b.entries| then b.entries[i].oldId else NO_ID
  }

  /** Replacing an entry by one of the same name moves no name. */
  lemma {:induction false} ReplaceAndNames(entries: seq<HEntry>, at: nat, e: HEntry, f: string)
    requires at < |entries| && e.filename == entries[at].filename
    ensures FindName(entries[at := e], f) == FindName(entries, f)
  {
    FindNameAt(entries[at := e], f, FindName(entries, f));
  }

  /** A new last entry is found under its name, if that is new, and moves no other. */
  lemma {:induction false} AppendAndNames(entries: seq<HEntry>, e: HEntry, f: string)
    requires FindName(entries, e.filename) == |entries|
    ensures FindName(entries + [e], f) ==
      if f == e.filename then |entries|
      else if FindName(entries, f) < |entries| then FindName(entries, f) else |entries| + 1
  {
    var i := FindName(entries, f);
    FindNameAt(entries + [e], f, if f == e.filename || i < |entries| then i else i + 1);
  }

  lemma {:induction false} UpdateAndNames(b: Bucket, at: nat, c: Call, f: string)
    requires at < |b.entries| && at == FindName(b.entries, c.filename)
    ensures var i, b' := FindName(b.entries, f), UpdateAt(b, at, c);
      && FindName(b'.entries, f) == i && |b'.entries| == |b.entries|
      && (i < |b.entries| ==> b'.entries[i] == if f == c.filename then Updated(b.entries[i], c) else b.entries[i])
  {
    ReplaceAndNames(b.entries, at, Updated(b.entries[at], c), f);
  }

  /** From `was` to `now`, a call changes the entry of its own file at most, and creates it if it records. */
  predicate OwnEntryChanged(was: seq<HEntry>, now: seq<HEntry>, c: Call, f: string, recorded: bool) {
    var i, i' := FindName(was, f), FindName(now, f);
    if f == c.filename && recorded then
      i' < |now| && now[i'] == Updated(if i < |was| then was[i] else NewEntry(f), c)
    else if i < |was| then i' == i && i < |now| && now[i] == was[i]
    else i' == |now|
  }

  lemma {:induction false} NewAndNames(b: Bucket, c: Call, f: string)
    requires FindName(b.entries, c.filename) == |b.entries|
    ensures var more := b.(entries := b.entries + [NewEntry(c.filename)]);
      OwnEntryChanged(b.entries, UpdateAt(more, |b.entries|, c).entries, c, f, true)
  {
    var more := b.(entries := b.entries + [NewEntry(c.filename)]);
    AppendAndNames(b.entries, NewEntry(c.filename), f);
    AppendAndNames(b.entries, NewEntry(c.filename), c.filename);
    UpdateAndNames(more, |b.entries|, c, f);
  }

  lemma {:induction false} AddAndNames(b: Bucket, c: Call, f: string)
    ensures OwnEntryChanged(b.entries, Add(b, c).0.entries, c, f, Add(b, c).1 == Recorded)
  {
    var at := FindName(b.entries, c.filename);
    if at < |b.entries| {
      UpdateAndNames(b, at, c, f);
    } else {
      NewAndNames(b, c, f);
    }
  }

  lemma {:induction false} FindNameAt(entries: seq<HEntry>, f: string, i: nat)
    requires i <= |entries| && (i < |entries| ==> entries[i].filename == f)
    requires forall k :: 0 <= k < i ==> entries[k].filename != f
    ensures FindName(entries, f) == i
  {
  }

  /** The invariant of every bucket over every run of calls. */
  lemma {:induction false} RunKeepsBucket(empty: Bucket, calls: seq<Call>, n: nat)
    requires n <= |calls| && empty == EmptyBucket(empty.typ, empty.hash)
    requires forall k :: 0 <= k < n ==> calls[k].need ==> calls[k].digest.Some?
    ensures BucketOk(RunBucket(empty, calls, n))
  {
    if n > 0 {
      RunKeepsBucket(empty, calls, n - 1);
      AddKeepsBucket(RunBucket(empty, calls, n - 1), calls[n - 1]);
    }
  }

  /** At no time in the first `n` calls are there more than 256 needed files. */
  predicate BoundKept(empty: Bucket, calls: seq<Call>, n: nat)
    requires n <= |calls|
  {
    RunBucket(empty, calls, n).numNeeded <= MAX_COLLISIONS && (n > 0 ==> BoundKept(empty, calls, n - 1))
  }

  /** None of the first `n` calls promotes an entry of a full bucket. */
  predicate NoPromotion(empty: Bucket, calls: seq<Call>, n: nat)
    requires n <= |calls|
  {
    n > 0 ==>
      && NoPromotion(empty, calls, n - 1)
      && var b, c := RunBucket(empty, calls, n - 1), calls[n - 1];
        c.typ == b.typ && c.hash == b.hash ==> !Promotes(b, c)
  }

  /** Over every run the bound is kept exactly when no call promotes an entry of a full bucket. */
  lemma {:induction false} RunKeepsBound(empty: Bucket, calls: seq<Call>, n: nat)
    requires n <= |calls| && empty == EmptyBucket(empty.typ, empty.hash)
    ensures BoundKept(empty, calls, n) <==> NoPromotion(empty, calls, n)
  {
    if n > 0 {
      RunKeepsBound(empty, calls, n - 1);
      var b, c := RunBucket(empty, calls, n - 1), calls[n - 1];
      if BoundKept(empty, calls, n - 1) && c.typ == b.typ && c.hash == b.hash {
        AddKeepsBound(b, c);
      }
    }
  }

  lemma UpdateCount(entries: seq<HEntry>, i: nat, c: Call)
    requires i < |entries|
    ensures CountNeeded(entries[i := Updated(entries[i], c)]) <= CountNeeded(entries) + 1
  {
    CountUpdate(entries, i, Updated(entries[i], c));
  }

  lemma {:induction false} AppendCount(entries: seq<HEntry>, e: HEntry)
    ensures CountNeeded(entries + [e]) == CountNeeded(entries) + if e.needed then 1 else 0
  {
    assert (entries + [e])[..|entries|] == entries;
  }

  lemma AddCount(b: Bucket, c: Call)
    ensures CountNeeded(Add(b, c).0.entries) <= CountNeeded(b.entries) + 1
  {
    var i := FindName(b.entries, c.filename);
    if i < |b.entries| {
      UpdateCount(b.entries, i, c);
    } else {
      AppendCount(b.entries, NewEntry(c.filename));
      UpdateCount(b.entries + [NewEntry(c.filename)], i, c);
    }
  }

  lemma CountStep(b: Bucket, c: Call)
    requires b.numNeeded == CountNeeded(b.entries) <= MAX_COLLISIONS && BucketOk(b) && (c.need ==> c.digest.Some?)
    ensures Add(b, c).0.numNeeded == CountNeeded(Add(b, c).0.entries)
  {
    AddKeepsBucket(b, c);
    AddCount(b, c);
  }

  /** While the bound is kept, the counter is the number of needed files, without wrapping. */
  lemma {:induction false} CountExact(empty: Bucket, calls: seq<Call>, n: nat)
    requires n <= |calls| && empty == EmptyBucket(empty.typ, empty.hash) && BoundKept(empty, calls, n)
    requires forall k :: 0 <= k < n ==> calls[k].need ==> calls[k].digest.Some?
    ensures var b := RunBucket(empty, calls, n); b.numNeeded == CountNeeded(b.entries)
  {
    if n > 0 {
      var b := RunBucket(empty, calls, n - 1);
      CountExact(empty, calls, n - 1);
      RunKeepsBucket(empty, calls, n - 1);
      CountStep(b, calls[n - 1]);
    }
  }

  // A run that exceeds the bound: the link of a file, 256 other files, and then the file itself.

  /** Three decimal digits and an extension that `do_file` accepts. */
  function FileName(k: nat): string
    requires k < 1000
  {
    [DecimalDigit(k / 100), DecimalDigit(k / 10 % 10), DecimalDigit(k % 10), '.', 'p', 'e', 'm']
  }

  function DecimalDigit(d: nat): char
    requires d < 10
  {
    (d + 48) as char
  }

  function FileDigest(k: nat): Digest {
    [1, (k % 256) as byte, (k / 256 % 256) as byte, 0, 0, 0, 0, 0, 0, 0, 0, 0, 0, 0, 0, 0, 0, 0, 0, 0]
  }

  function CrowdCall(i: nat): Call {
    if i == 0 then Call(0, 0, "link.pem", None, false, 0)
    else if i <= 256 then Call(0, 0, FileName(i), Some(FileDigest(i)), true, NO_ID)
    else Call(0, 0, "link.pem", Some(FileDigest(i)), true, NO_ID)
  }

  function CrowdCalls(n: nat): (calls: seq<Call>)
    ensures |calls| == n && forall i :: 0 <= i < n ==> calls[i] == CrowdCall(i)
  {
    if n == 0 then [] else CrowdCalls(n - 1) + [CrowdCall(n - 1)]
  }

  /** The run: the link, 256 files, and the link's own file. */
  predicate IsCrowd(calls: seq<Call>) {
    |calls| == 258 && forall i :: 0 <= i < |calls| ==> calls[i] == CrowdCall(i)
  }

  /** The bucket after the link and the first `k` files. */
  predicate Crowded(b: Bucket, k: nat) {
    && k < 1000 && b.typ == 0 && b.hash == 0 && b.numNeeded == k && |b.entries| == k + 1
    && b.entries[0] == HEntry("link.pem", 0, false, NIL_DIGEST)
    && forall i :: 1 <= i <= k ==> b.entries[i] == HEntry(FileName(i), NO_ID, true, FileDigest(i))
  }

  lemma CrowdFirst(b: Bucket)
    requires b == EmptyBucket(0, 0)
    ensures Crowded(Visit(b, CrowdCall(0)).0, 0)
  {
  }

  lemma FileDigestsDiffer(i: nat, j: nat)
    requires i != j && i <= 257 && j <= 257
    ensures FileDigest(i) != FileDigest(j) && FileDigest(i) != NIL_DIGEST
  {
    assert FileDigest(i)[0] == 1 && NIL_DIGEST[0] == 0;
    assert FileDigest(i)[1] == i % 256 && FileDigest(j)[1] == j % 256;
    assert FileDigest(i)[2] == i / 256 && FileDigest(j)[2] == j / 256;
  }

  lemma ThreeDigits(i: nat)
    requires i < 1000
    ensures i == 100 * (i / 100) + 10 * (i / 10 % 10) + i % 10
  {
    Quotient(i, 100, i / 100, i % 100);
    assert i / 10 / 10 == i / 100;
  }

  lemma DigitsDiffer(c: nat, d: nat)
    requires c < 10 && d < 10
    ensures DecimalDigit(c) == DecimalDigit(d) <==> c == d
    ensures DecimalDigit(c) != 'l'
  {
  }

  lemma FileNamesDiffer(i: nat, j: nat)
    requires i != j && i < 1000 && j < 1000
    ensures FileName(i) != FileName(j) && FileName(i) != "link.pem"
  {
    ThreeDigits(i);
    ThreeDigits(j);
    DigitsDiffer(i / 100, j / 100);
    DigitsDiffer(i / 10 % 10, j / 10 % 10);
    DigitsDiffer(i % 10, j % 10);
    assert FileName(i)[0] == DecimalDigit(i / 100) && FileName(j)[0] == DecimalDigit(j / 100);
    assert FileName(i)[1] == DecimalDigit(i / 10 % 10) && FileName(j)[1] == DecimalDigit(j / 10 % 10);
    assert FileName(i)[2] == DecimalDigit(i % 10) && FileName(j)[2] == DecimalDigit(j % 10);
  }

  /** A new name with a new digest gets an entry of its own. */
  lemma AddNew(b: Bucket, c: Call)
    requires c.need && c.digest.Some? && b.numNeeded < MAX_COLLISIONS
    requires forall i :: 0 <= i < |b.entries| ==>
      b.entries[i].filename != c.filename && b.entries[i].digest != c.digest.value
    ensures Add(b, c).0 ==
      b.(entries := b.entries + [HEntry(c.filename, c.oldId, true, c.digest.value)], numNeeded := b.numNeeded + 1)
  {
    FindNameAt(b.entries, c.filename, |b.entries|);
  }

  lemma CrowdDiffers(b: Bucket, k: nat, i: nat)
    requires Crowded(b, k) && k < 256 && i <= k
    ensures b.entries[i].filename != CrowdCall(k + 1).filename
    ensures b.entries[i].digest != CrowdCall(k + 1).digest.value
  {
    FileNamesDiffer(k + 1, i);
    FileNamesDiffer(i, k + 1);
    FileDigestsDiffer(k + 1, i);
  }

  lemma CrowdNext(b: Bucket, k: nat)
    requires Crowded(b, k) && k < 256
    ensures Crowded(Visit(b, CrowdCall(k + 1)).0, k + 1)
  {
    var c := CrowdCall(k + 1);
    forall i | 0 <= i < |b.entries|
      ensures b.entries[i].filename != c.filename && b.entries[i].digest != c.digest.value
    {
      CrowdDiffers(b, k, i);
    }
    AddNew(b, c);
  }

  /** The file of the link is promoted, although the bucket is full. */
  lemma CrowdLast(b: Bucket)
    requires Crowded(b, 256)
    ensures Promotes(b, CrowdCall(257)) && Visit(b, CrowdCall(257)).0.numNeeded == 257
  {
    var c := CrowdCall(257);
    forall i | 0 <= i < |b.entries|
      ensures b.entries[i].digest != c.digest.value
    {
      FileDigestsDiffer(257, i);
    }
    FindNameAt(b.entries, c.filename, 0);
  }

  lemma CrowdTurn(calls: seq<Call>, empty: Bucket, k: nat)
    requires IsCrowd(calls) && empty == EmptyBucket(0, 0) && 0 < k <= 256
    requires Crowded(RunBucket(empty, calls, k), k - 1)
    ensures Crowded(RunBucket(empty, calls, k + 1), k)
  {
    CrowdNext(RunBucket(empty, calls, k), k - 1);
  }

  lemma {:induction false} CrowdStart(calls: seq<Call>, empty: Bucket)
    requires IsCrowd(calls) && empty == EmptyBucket(0, 0)
    ensures Crowded(RunBucket(empty, calls, 1), 0)
  {
    CrowdFirst(empty);
    assert RunBucket(empty, calls, 0) == empty;
  }

  lemma {:induction false} CrowdRun(calls: seq<Call>, empty: Bucket, k: nat)
    requires IsCrowd(calls) && empty == EmptyBucket(0, 0) && k <= 256
    ensures Crowded(RunBucket(empty, calls, k + 1), k)
  {
    if k == 0 {
      CrowdStart(calls, empty);
    } else {
      CrowdRun(calls, empty, k - 1);
      CrowdTurn(calls, empty, k);
    }
  }

  lemma {:induction false} CrowdBound(calls: seq<Call>, empty: Bucket, n: nat)
    requires IsCrowd(calls) && empty == EmptyBucket(0, 0) && n <= 257
    ensures BoundKept(empty, calls, n)
  {
    if n > 0 {
      CrowdBound(calls, empty, n - 1);
      CrowdRun(calls, empty, n - 1);
    }
  }

  /** There is such a run, of calls that the program makes. */
  lemma CrowdExists(n: nat) returns (calls: seq<Call>)
    requires n == 258
    ensures IsCrowd(calls) && forall k :: 0 <= k < |calls| ==> ValidCall(calls[k])
  {
    calls := CrowdCalls(n);
  }

  /** After it one bucket has 257 needed files, and 33 bytes of the mask are to be cleared. */
  lemma {:induction false} CrowdExceedsBound(calls: seq<Call>, empty: Bucket, n: nat)
    requires IsCrowd(calls) && empty == EmptyBucket(0, 0) && n == |calls|
    ensures RunBucket(empty, calls, n).numNeeded == 257 && MaskBytes(257) > MAX_COLLISIONS / 8
    ensures !BoundKept(empty, calls, n) && !NoPromotion(empty, calls, n)
  {
    CrowdRun(calls, empty, n - 2);
    CrowdLast(RunBucket(empty, calls, n - 1));
    RunKeepsBound(empty, calls, n);
  }

  lemma IdsNext(empty: Bucket, calls: seq<Call>, n: nat, filename: string)
    requires n < |calls| && IdsOk(RunBucket(empty, calls, n), empty, calls, n, filename)
    ensures IdsOk(RunBucket(empty, calls, n + 1), empty, calls, n + 1, filename)
  {
    var b, c := RunBucket(empty, calls, n), calls[n];
    if c.typ == b.typ && c.hash == b.hash {
      AddAndNames(b, c, filename);
    }
  }

  /** After every run, the old number of a file's entry is the least one recorded for it. */
  lemma {:induction false} RunKeepsIds(empty: Bucket, calls: seq<Call>, n: nat, filename: string)
    requires n <= |calls| && empty == EmptyBucket(empty.typ, empty.hash)
    ensures IdsOk(RunBucket(empty, calls, n), empty, calls, n, filename)
  {
    if n > 0 {
      RunKeepsIds(empty, calls, n - 1, filename);
      IdsNext(empty, calls, n - 1, filename);
    }
  }

  // ----- the table

  function Slot(typ: nat, hash: nat): nat {
    (typ + hash) % 0x1_0000_0000 % TABLE_SIZE
  }

  predicate Is(b: Bucket, typ: nat, hash: nat) {
    b.typ == typ && b.hash == hash
  }

  /** Position of the bucket in its chain, or the length of the chain. */
  function FindBucket(chain: seq<Bucket>, typ: nat, hash: nat): (i: nat)
    ensures i <= |chain| && (i < |chain| ==> Is(chain[i], typ, hash))
    ensures forall k :: 0 <= k < i ==> !Is(chain[k], typ, hash)
  {
    if chain == [] || Is(chain[0], typ, hash) then 0 else 1 + FindBucket(chain[1..], typ, hash)
  }

  function InChain(chain: seq<Bucket>, typ: nat, hash: nat): (b: Bucket)
    ensures Is(b, typ, hash)
  {
    var i := FindBucket(chain, typ, hash);
    if i < |chain| then chain[i] else EmptyBucket(typ, hash)
  }

  /** Every bucket is in its own chain, and there only once. */
  predicate ChainOk(chain: seq<Bucket>, slot: nat) {
    && (forall i :: 0 <= i < |chain| ==> Slot(chain[i].typ, chain[i].hash) == slot)
    && (forall i, j :: 0 <= i < j < |chain| ==> !Is(chain[j], chain[i].typ, chain[i].hash))
  }

  lemma ReplaceInChain(chain: seq<Bucket>, slot: nat, b: Bucket, typ: nat, hash: nat)
    requires ChainOk(chain, slot) && FindBucket(chain, b.typ, b.hash) < |chain|
    ensures var chain' := chain[FindBucket(chain, b.typ, b.hash) := b];
      ChainOk(chain', slot)
      && InChain(chain', typ, hash) == if Is(b, typ, hash) then b else InChain(chain, typ, hash)
  {
    var i := FindBucket(chain, b.typ, b.hash);
    var chain' := chain[i := b];
    assert forall k :: 0 <= k < |chain| ==> Is(chain'[k], chain[k].typ, chain[k].hash);
    FindBucketAt(chain', typ, hash, FindBucket(chain, typ, hash));
  }

  lemma {:induction false} FindBucketAt(chain: seq<Bucket>, typ: nat, hash: nat, i: nat)
    requires i <= |chain| && (i < |chain| ==> Is(chain[i], typ, hash))
    requires forall k :: 0 <= k < i ==> !Is(chain[k], typ, hash)
    ensures FindBucket(chain, typ, hash) == i
  {
  }

  lemma {:induction false} PushOnChain(chain: seq<Bucket>, slot: nat, b: Bucket, typ: nat, hash: nat)
    requires ChainOk(chain, slot) && FindBucket(chain, b.typ, b.hash) == |chain| && Slot(b.typ, b.hash) == slot
    ensures var chain' := [b] + chain;
      ChainOk(chain', slot)
      && InChain(chain', typ, hash) == if Is(b, typ, hash) then b else InChain(chain, typ, hash)
  {
    assert ([b] + chain)[1..] == chain;
  }

  ghost predicate TableOk(chains: seq<seq<Bucket>>) {
    |chains| == TABLE_SIZE && forall s :: 0 <= s < TABLE_SIZE ==> ChainOk(chains[s], s)
  }

  /** The bucket of a type and a hash; an empty one when the table has none. */
  function BucketIn(chains: seq<seq<Bucket>>, typ: nat, hash: nat): Bucket
    requires |chains| == TABLE_SIZE
  {
    InChain(chains[Slot(typ, hash)], typ, hash)
  }

  // ----- the table over a run of calls; a new bucket goes to the head of its chain

  function Opened(chain: seq<Bucket>, typ: nat, hash: nat): seq<Bucket> {
    if FindBucket(chain, typ, hash) < |chain| then chain else [EmptyBucket(typ, hash)] + chain
  }

  function ChainAdd(chain: seq<Bucket>, c: Call): seq<Bucket> {
    var chain' := Opened(chain, c.typ, c.hash);
    var i := FindBucket(chain', c.typ, c.hash);
    chain'[i := Add(chain'[i], c).0]
  }

  function TableAdd(chains: seq<seq<Bucket>>, c: Call): (r: seq<seq<Bucket>>)
    requires |chains| == TABLE_SIZE
    ensures |r| == TABLE_SIZE
  {
    chains[Slot(c.typ, c.hash) := ChainAdd(chains[Slot(c.typ, c.hash)], c)]
  }

  function EmptyTable(): (r: seq<seq<Bucket>>)
    ensures |r| == TABLE_SIZE && forall s :: 0 <= s < TABLE_SIZE ==> r[s] == []
  {
    seq(TABLE_SIZE, _ => [])
  }

  /** The table after the first `n` calls. */
  function TableAfter(calls: seq<Call>, n: nat): (r: seq<seq<Bucket>>)
    requires n <= |calls|
    ensures |r| == TABLE_SIZE
  {
    if n == 0 then EmptyTable() else TableAdd(TableAfter(calls, n - 1), calls[n - 1])
  }

  lemma {:induction false} OpenedMeans(chain: seq<Bucket>, slot: nat, typ: nat, hash: nat, t: nat, h: nat)
    requires ChainOk(chain, slot) && Slot(typ, hash) == slot
    ensures var chain' := Opened(chain, typ, hash);
      ChainOk(chain', slot) && FindBucket(chain', typ, hash) < |chain'| && InChain(chain', t, h) == InChain(chain, t, h)
  {
    if FindBucket(chain, typ, hash) == |chain| {
      PushOnChain(chain, slot, EmptyBucket(typ, hash), t, h);
    }
  }

  lemma OpenedReplace(chain: seq<Bucket>, slot: nat, b: Bucket, t: nat, h: nat)
    requires ChainOk(chain, slot) && Slot(b.typ, b.hash) == slot
    ensures var chain' := Opened(chain, b.typ, b.hash);
      var i := FindBucket(chain', b.typ, b.hash);
      && i < |chain'| && chain'[i] == InChain(chain, b.typ, b.hash) && ChainOk(chain'[i := b], slot)
      && InChain(chain'[i := b], t, h) == if Is(b, t, h) then b else InChain(chain, t, h)
  {
    OpenedMeans(chain, slot, b.typ, b.hash, t, h);
    OpenedMeans(chain, slot, b.typ, b.hash, b.typ, b.hash);
    ReplaceInChain(Opened(chain, b.typ, b.hash), slot, b, t, h);
  }

  /** One call changes its own bucket, as specified, and no other; each bucket stays alone in the right chain. */
  lemma ChainAddMeans(chain: seq<Bucket>, slot: nat, c: Call, t: nat, h: nat)
    requires ChainOk(chain, slot) && Slot(c.typ, c.hash) == slot
    ensures ChainOk(ChainAdd(chain, c), slot)
    ensures InChain(ChainAdd(chain, c), t, h) == Visit(InChain(chain, t, h), c).0
  {
    OpenedReplace(chain, slot, Add(InChain(chain, c.typ, c.hash), c).0, t, h);
  }

  lemma TableAddMeans(chains: seq<seq<Bucket>>, c: Call)
    requires TableOk(chains)
    ensures TableOk(TableAdd(chains, c))
    ensures forall t, h :: BucketIn(TableAdd(chains, c), t, h) == Visit(BucketIn(chains, t, h), c).0
  {
    var s := Slot(c.typ, c.hash);
    forall t, h
      ensures BucketIn(TableAdd(chains, c), t, h) == Visit(BucketIn(chains, t, h), c).0
    {
      ChainAddMeans(chains[s], s, c, t, h);
    }
    ChainAddMeans(chains[s], s, c, 0, 0);
  }

  /** After every run, the table has each bucket in its own chain, and in each the run of its calls. */
  lemma {:induction false} TableBuckets(calls: seq<Call>, n: nat)
    requires n <= |calls|
    ensures TableOk(TableAfter(calls, n))
    ensures forall t, h :: BucketIn(TableAfter(calls, n), t, h) == RunBucket(EmptyBucket(t, h), calls, n)
  {
    if n > 0 {
      TableBuckets(calls, n - 1);
      TableAddMeans(TableAfter(calls, n - 1), calls[n - 1]);
    }
  }

  class HashTable {
    const chains: array<seq<Bucket>>

    predicate Valid() {
      chains.Length == TABLE_SIZE
    }

    constructor ()
      ensures Valid() && fresh(chains) && chains[..] == EmptyTable()
    {
      chains := new seq<Bucket>[TABLE_SIZE](_ => []);
    }

    /** The loop over the entries: a duplicate ends it, a known name is remembered. */
    method Search(entries: seq<HEntry>, c: Call) returns (duplicate: bool, found: nat)
      ensures duplicate <==> HasDigest(entries, |entries|, c.digest)
      ensures !duplicate && DistinctNames(entries) ==> found == FindName(entries, c.filename)
    {
      found := |entries|;
      var k := 0;
      while k < |entries|
        invariant k <= |entries| && !HasDigest(entries, k, c.digest)
        invariant if found < |entries| then found < k && entries[found].filename == c.filename else found == |entries|
        invariant found == |entries| ==> forall j :: 0 <= j < k ==> entries[j].filename != c.filename
      {
        if c.digest.Some? && c.digest.value == entries[k].digest {
          return true, found;
        }
        if c.filename == entries[k].filename {
          found := k;
          if c.digest.None? {
            break;
          }
        }
        k := k + 1;
      }
      duplicate := false;
      if DistinctNames(entries) {
        FindNameAt(entries, c.filename, found);
      }
    }

    /** Finds the bucket in its chain, or puts a new one at the head of the chain. */
    method OpenBucket(typ: nat, hash: nat) returns (ndx: nat, bp: nat)
      requires Valid()
      modifies chains
      ensures ndx == Slot(typ, hash)
      ensures chains[..] == old(chains[..])[ndx := Opened(old(chains[ndx]), typ, hash)]
      ensures bp < |chains[ndx]| && bp == FindBucket(chains[ndx], typ, hash)
    {
      ndx, bp := Slot(typ, hash), 0;
      var chain := chains[ndx];
      while bp < |chain| && !Is(chain[bp], typ, hash)
        invariant bp <= |chain| && forall k :: 0 <= k < bp ==> !Is(chain[k], typ, hash)
      {
        bp := bp + 1;
      }
      FindBucketAt(chain, typ, hash, bp);
      if bp == |chain| {
        chains[ndx] := [EmptyBucket(typ, hash)] + chain;
        bp := 0;
      }
    }

    method AddEntry(c: Call) returns (errs: nat)
      requires Valid() && ValidCall(c) && DistinctNames(BucketIn(chains[..], c.typ, c.hash).entries)
      modifies chains
      ensures chains[..] == TableAdd(old(chains[..]), c)
      ensures errs == if Add(BucketIn(old(chains[..]), c.typ, c.hash), c).1 == Overflow then 1 else 0
    {
      var ndx, bp := OpenBucket(c.typ, c.hash);
      var b := chains[ndx][bp];
      assert b == BucketIn(old(chains[..]), c.typ, c.hash) && chains[ndx][bp := b] == chains[ndx];
      var duplicate, ep := Search(b.entries, c);
      if duplicate {
        return 0;
      }
      if ep == |b.entries| {
        if b.numNeeded >= MAX_COLLISIONS {
          return 1;
        }
        b := b.(entries := b.entries + [NewEntry(c.filename)]);
      }
      chains[ndx] := chains[ndx][bp := UpdateAt(b, ep, c)];
      errs := 0;
    }

    /** Call `k` of a run. */
    method AddNext(calls: seq<Call>, k: nat) returns (errs: nat)
      requires Valid() && k < |calls| && forall j :: 0 <= j <= k ==> ValidCall(calls[j])
      requires chains[..] == TableAfter(calls, k)
      modifies chains
      ensures chains[..] == TableAfter(calls, k + 1)
      ensures CountOverflows(calls, k + 1) == CountOverflows(calls, k) + errs
    {
      var c := calls[k];
      TableBuckets(calls, k);
      RunKeepsBucket(EmptyBucket(c.typ, c.hash), calls, k);
      CountNext(calls, k);
      errs := AddEntry(c);
    }

    /** A whole run of calls on a new table. */
    method AddAll(calls: seq<Call>) returns (errs: nat)
      requires Valid() && forall k :: 0 <= k < |calls| ==> ValidCall(calls[k])
      requires chains[..] == EmptyTable()
      modifies chains
      ensures chains[..] == TableAfter(calls, |calls|)
      ensures errs == CountOverflows(calls, |calls|)
    {
      errs := 0;
      for k := 0 to |calls|
        invariant errs == CountOverflows(calls, k) && chains[..] == TableAfter(calls, k)
      {
        var e := AddNext(calls, k);
        errs := errs + e;
      }
    }
  }
}
