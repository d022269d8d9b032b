/**
 The recipient list of `cCreateSparkMintRecipients`: built block by block, with any allocation
 failing, and released by `freeRecipients`.
 */
module SparkRecipients {
  import opened Common
  import opened SparkHeap

  datatype Recipient = Recipient(pubKey: seq<byte>, amount: nat, subtractFee: bool)

  /** The place of a block in the structure. */
  datatype Place = Root | List | Key(i: nat)

  /** Which block stands where; a block has one place, so two places never share a block. */
  type Places = map<Ptr, Place>

  predicate IsAt(at: Places, p: Ptr, place: Place) {
    p != NULL ==> p in at && at[p] == place
  }

  /** The key pointers of the array: each null or a byte block at its own place, null from `n` on. */
  predicate KeysOk(blocks: Blocks, entries: seq<CRecipient>, n: nat, at: Places) {
    forall i :: 0 <= i < |entries| ==>
      && IsAt(at, entries[i].pubKey, Key(i))
      && (entries[i].pubKey != NULL ==> i < n && entries[i].pubKey in blocks && blocks[entries[i].pubKey].Bytes?)
  }

  /** A list that may be partly built; `at` says where every one of its blocks stands. */
  ghost predicate ListOk(blocks: Blocks, root: Ptr, at: Places) {
    && root in blocks && blocks[root].Recipients? && root != NULL && IsAt(at, root, Root)
    && var r := blocks[root].recipients;
      && IsAt(at, r.list, List)
      && (r.list == NULL ==> at.Keys == {root})
      && (r.list != NULL ==>
            && r.list in blocks && blocks[r.list].RecipientArray?
            && Loops(r.length) <= |blocks[r.list].entries|
            && KeysOk(blocks, blocks[r.list].entries, Loops(r.length), at)
            && forall p :: p in at ==> Reachable(blocks[r.list].entries, root, r.list, p))
  }

  predicate Reachable(entries: seq<CRecipient>, root: Ptr, list: Ptr, p: Ptr) {
    p == root || p == list || exists i :: 0 <= i < |entries| && entries[i].pubKey == p && p != NULL
  }

  /** The source vector, entry by entry, as far as the `int` length goes. */
  predicate SameEntry(blocks: Blocks, e: CRecipient, r: Recipient) {
    && e.amount == r.amount && e.subtractFee == r.subtractFee && e.pubKeyLength == ToInt32(|r.pubKey|)
    && e.pubKey in blocks && blocks[e.pubKey] == Bytes(r.pubKey)
  }

  ghost predicate Represents(blocks: Blocks, root: Ptr, source: seq<Recipient>) {
    && root in blocks && blocks[root].Recipients?
    && var r := blocks[root].recipients;
      && r.length == ToInt32(|source|)
      && r.list in blocks && blocks[r.list].RecipientArray? && |blocks[r.list].entries| == Room(|source|)
      && forall i :: 0 <= i < Loops(r.length) ==> SameEntry(blocks, blocks[r.list].entries[i], source[i])
  }

  /** `freeRecipients`: releases exactly the blocks of the list, each once. */
  method FreeRecipients(heap: Heap, root: Ptr, ghost at: Places)
    requires heap.Valid() && (root == NULL || ListOk(heap.blocks, root, at))
    modifies heap`blocks, heap`next
    ensures heap.Valid()
    ensures heap.blocks == if root == NULL then old(heap.blocks) else old(heap.blocks) - at.Keys
  {
    if root == NULL {
      return;
    }
    var r := heap.blocks[root].recipients;
    ghost var was := heap.blocks;
    ghost var freed: set<Ptr> := {};
    if r.list != NULL {
      var entries := heap.blocks[r.list].entries;
      for i := 0 to Loops(r.length)
        invariant heap.Valid() && heap.blocks == was - freed
        invariant forall p :: p in freed <==> p in at && at[p].Key? && at[p].i < i
      {
        heap.Free(entries[i].pubKey);
        freed := freed + if entries[i].pubKey == NULL then {} else {entries[i].pubKey};
        assert forall p :: p in at && at[p] == Key(i) ==> p == entries[i].pubKey by {
          forall p | p in at && at[p] == Key(i)
            ensures p == entries[i].pubKey
          {
            assert Reachable(entries, root, r.list, p);
          }
        }
      }
    }
    heap.Free(r.list);
    heap.Free(root);
    assert heap.blocks == was - at.Keys;
  }

  const ZERO_ENTRY := CRecipient(NULL, 0, 0, false)

  function ZeroEntries(n: nat): (r: seq<CRecipient>)
    ensures |r| == n && forall i :: 0 <= i < n ==> r[i] == ZERO_ENTRY
  {
    if n == 0 then [] else ZeroEntries(n - 1) + [ZERO_ENTRY]
  }

  /** The list after `i` turns of the filling loop. */
  ghost predicate Filled(was: Blocks, now: Blocks, root: Ptr, source: seq<Recipient>, at: Places, i: nat) {
    && Extends(was, now, at.Keys) && ListOk(now, root, at)
    && var r := now[root].recipients;
      && r.length == ToInt32(|source|) && r.list != NULL
      && var entries := now[r.list].entries;
        && |entries| == Room(|source|) && i <= Loops(r.length)
        && (forall j :: 0 <= j < i ==> SameEntry(now, entries[j], source[j]))
        && (forall j :: i <= j < |entries| ==> entries[j].pubKey == NULL)
  }

  lemma FilledRepresents(was: Blocks, now: Blocks, root: Ptr, source: seq<Recipient>, at: Places, i: nat)
    requires Filled(was, now, root, source, at, i) && i == Loops(ToInt32(|source|))
    ensures Represents(now, root, source)
  {
  }

  /** The three assignments of a turn that allocate nothing. */
  function Started(e: CRecipient, r: Recipient): CRecipient {
    e.(amount := r.amount, subtractFee := r.subtractFee, pubKeyLength := ToInt32(|r.pubKey|))
  }

  /** Setting a null key pointer, or none, takes nothing out of reach. */
  lemma StillReachable(entries: seq<CRecipient>, entries': seq<CRecipient>, root: Ptr, list: Ptr)
    requires |entries'| == |entries|
    requires forall j :: 0 <= j < |entries| ==> entries[j].pubKey == NULL || entries'[j].pubKey == entries[j].pubKey
    ensures forall p :: Reachable(entries, root, list, p) ==> Reachable(entries', root, list, p)
  {
    forall p | Reachable(entries, root, list, p)
      ensures Reachable(entries', root, list, p)
    {
      if p != root && p != list {
        var j :| 0 <= j < |entries| && entries[j].pubKey == p && p != NULL;
        assert entries'[j].pubKey == p;
      }
    }
  }

  lemma StartEntry(was: Blocks, now: Blocks, root: Ptr, source: seq<Recipient>, at: Places, i: nat)
    requires Filled(was, now, root, source, at, i) && i < Loops(ToInt32(|source|))
    ensures var list := now[root].recipients.list; var entries := now[list].entries;
      i < |entries| && i < |source| &&
      Filled(was, now[list := RecipientArray(entries[i := Started(entries[i], source[i])])], root, source, at, i)
  {
    var list := now[root].recipients.list;
    var entries := now[list].entries;
    var entries' := entries[i := Started(entries[i], source[i])];
    var now' := now[list := RecipientArray(entries')];
    assert list in at && root in at;
    StillReachable(entries, entries', root, list);
    assert KeysOk(now', entries', Loops(ToInt32(|source|)), at);
  }

  /** The blocks once key `i` stands at `p`. */
  function WithKey(now: Blocks, list: Ptr, i: nat, p: Ptr, key: seq<byte>): Blocks
    requires list in now && now[list].RecipientArray? && i < |now[list].entries|
  {
    now[p := Bytes(key)][list := RecipientArray(now[list].entries[i := now[list].entries[i].(pubKey := p)])]
  }

  lemma KeyListOk(now: Blocks, root: Ptr, at: Places, i: nat, p: Ptr, key: seq<byte>)
    requires ListOk(now, root, at) && at.Keys <= now.Keys && p != NULL && p !in now
    requires now[root].recipients.list != NULL && i < Loops(now[root].recipients.length)
    requires now[now[root].recipients.list].entries[i].pubKey == NULL
    ensures ListOk(WithKey(now, now[root].recipients.list, i, p, key), root, at[p := Key(i)])
  {
    var list := now[root].recipients.list;
    var entries := now[list].entries;
    var entries' := entries[i := entries[i].(pubKey := p)];
    assert list in at && root in at && p !in at;
    StillReachable(entries, entries', root, list);
    assert Reachable(entries', root, list, p) by {
      assert entries'[i].pubKey == p;
    }
    assert KeysOk(WithKey(now, list, i, p, key), entries', Loops(now[root].recipients.length), at[p := Key(i)]);
  }

  lemma PlaceKey(was: Blocks, now: Blocks, root: Ptr, source: seq<Recipient>, at: Places, i: nat, p: Ptr)
    requires Filled(was, now, root, source, at, i) && i < Loops(ToInt32(|source|)) <= |source|
    requires p != NULL && p !in now
    requires var e := now[now[root].recipients.list].entries[i]; e == Started(e, source[i])
    ensures var now' := WithKey(now, now[root].recipients.list, i, p, source[i].pubKey);
      Filled(was, now', root, source, at[p := Key(i)], i + 1)
  {
    var list := now[root].recipients.list;
    var entries := now[list].entries;
    var now' := WithKey(now, list, i, p, source[i].pubKey);
    KeyListOk(now, root, at, i, p, source[i].pubKey);
    assert list in at && root in at;
    forall j | 0 <= j < i + 1
      ensures SameEntry(now', now'[list].entries[j], source[j])
    {
      if j < i {
        assert SameEntry(now, entries[j], source[j]);
      }
    }
  }

  /** One turn of the filling loop. */
  method FillEntry(heap: Heap, root: Ptr, source: seq<Recipient>, i: nat, ghost was: Blocks, ghost start: Places)
    returns (ok: bool, ghost at: Places)
    requires heap.Valid() && Filled(was, heap.blocks, root, source, start, i) && i < Loops(ToInt32(|source|))
    modifies heap`blocks, heap`next, heap`starved
    ensures heap.Valid() && ((!ok || old(heap.starved)) ==> heap.starved)
    ensures Filled(was, heap.blocks, root, source, at, if ok then i + 1 else i)
  {
    at := start;
    StartEntry(was, heap.blocks, root, source, at, i);
    var list := heap.blocks[root].recipients.list;
    var entries := heap.blocks[list].entries;
    var entry := entries[i];
    entry := entry.(amount := source[i].amount, subtractFee := source[i].subtractFee,
                    pubKeyLength := ToInt32(|source[i].pubKey|));
    entries := entries[i := entry];
    heap.Store(list, RecipientArray(entries));
    ghost var now := heap.blocks;
    var p := heap.CopyBytes(source[i].pubKey);
    if p == NULL {
      return false, at;
    }
    PlaceKey(was, now, root, source, at, i, p);
    heap.Store(list, RecipientArray(entries[i := entry.(pubKey := p)]));
    ok, at := true, at[p := Key(i)];
  }

  /** The filling loop; `ok` is false when an allocation failed. */
  method FillEntries(heap: Heap, root: Ptr, source: seq<Recipient>, ghost was: Blocks, ghost start: Places)
    returns (ok: bool, ghost at: Places)
    requires heap.Valid() && Filled(was, heap.blocks, root, source, start, 0)
    modifies heap`blocks, heap`next, heap`starved
    ensures heap.Valid() && Extends(was, heap.blocks, at.Keys) && ListOk(heap.blocks, root, at)
    ensures (!ok || old(heap.starved)) ==> heap.starved
    ensures ok ==> Represents(heap.blocks, root, source)
  {
    at := start;
    var length := heap.blocks[root].recipients.length;
    var i := 0;
    while i < length
      invariant heap.Valid() && 0 <= i <= Loops(length) && (old(heap.starved) ==> heap.starved)
      invariant Filled(was, heap.blocks, root, source, at, i) && length == ToInt32(|source|)
    {
      ok, at := FillEntry(heap, root, source, i, was, at);
      if !ok {
        return;
      }
      i := i + 1;
    }
    FilledRepresents(was, heap.blocks, root, source, at, i);
    ok := true;
  }

  function EmptyList(was: Blocks, root: Ptr, list: Ptr, source: seq<Recipient>): Blocks {
    was[list := RecipientArray(ZeroEntries(Room(|source|)))][root := Recipients(RecipientList(list, ToInt32(|source|)))]
  }

  /** The root and an empty array. */
  lemma ListStarts(was: Blocks, root: Ptr, list: Ptr, source: seq<Recipient>)
    requires root != NULL && list != NULL && root != list && root !in was && list !in was
    ensures Filled(was, EmptyList(was, root, list, source), root, source, map[root := Root, list := List], 0)
  {
  }

  /** Builds the whole list; `complete` is false where the source throws. */
  method AllocateList(heap: Heap, source: seq<Recipient>) returns (root: Ptr, complete: bool, ghost at: Places)
    requires heap.Valid()
    modifies heap`blocks, heap`next, heap`starved
    ensures heap.Valid()
    ensures (!complete || old(heap.starved)) ==> heap.starved
    ensures root == NULL ==> !complete && heap.blocks == old(heap.blocks)
    ensures root != NULL ==> Extends(old(heap.blocks), heap.blocks, at.Keys) && ListOk(heap.blocks, root, at)
    ensures complete ==> Represents(heap.blocks, root, source)
  {
    at, complete := map[], false;
    ghost var was := heap.blocks;
    root := heap.Allocate(Recipients(RecipientList(NULL, 0)));
    if root == NULL {
      return;
    }
    at := map[root := Root];
    heap.Store(root, Recipients(RecipientList(NULL, ToInt32(|source|))));
    var list := heap.Allocate(RecipientArray(ZeroEntries(Room(|source|))));
    if list == NULL {
      return;
    }
    heap.Store(root, Recipients(RecipientList(list, ToInt32(|source|))));
    at := map[root := Root, list := List];
    ListStarts(was, root, list, source);
    assert heap.blocks == EmptyList(was, root, list, source);
    complete, at := FillEntries(heap, root, source, was, at);
  }

  /** Builds the list, or gives back everything and returns null. */
  method BuildList(heap: Heap, source: seq<Recipient>) returns (root: Ptr, ghost at: Places)
    requires heap.Valid()
    modifies heap`blocks, heap`next, heap`starved
    ensures heap.Valid()
    ensures (root == NULL || old(heap.starved)) ==> heap.starved
    ensures root == NULL ==> heap.blocks == old(heap.blocks)
    ensures root != NULL ==>
      && Extends(old(heap.blocks), heap.blocks, at.Keys)
      && ListOk(heap.blocks, root, at) && Represents(heap.blocks, root, source)
  {
    ghost var was := heap.blocks;
    var complete;
    root, complete, at := AllocateList(heap, source);
    if !complete && root != NULL {
      ReleaseRestores(was, heap.blocks, at.Keys);
      FreeRecipients(heap, root, at);
      root := NULL;
    }
  }

  /** The list shows every recipient, in order. */
  predicate ShowsAll(blocks: Blocks, list: RecipientList, source: seq<Recipient>) {
    && list.length == |source|
    && list.list in blocks && blocks[list.list].RecipientArray? && |source| <= |blocks[list.list].entries|
    && forall i :: 0 <= i < |source| ==> SameEntry(blocks, blocks[list.list].entries[i], source[i])
  }

  /** A returned list shows every recipient exactly when there are fewer than 2^31. */
  lemma CountExactly(blocks: Blocks, root: Ptr, source: seq<Recipient>)
    requires Represents(blocks, root, source)
    ensures ShowsAll(blocks, blocks[root].recipients, source) <==> |source| < 0x8000_0000
    ensures blocks[root].recipients.length == |source| <==> |source| < 0x8000_0000
  {
    Narrowing(|source|);
  }

  /** Of 2^31 recipients the count is -2^31, and no key is in the list; of 2^32 + 1 the list shows the first. */
  lemma ManyRecipients(blocks: Blocks, root: Ptr, at: Places, source: seq<Recipient>)
    requires NULL !in blocks && ListOk(blocks, root, at) && Represents(blocks, root, source)
    ensures var r := blocks[root].recipients;
      && (|source| == 0x8000_0000 ==>
            r.length == -0x8000_0000
            && forall i :: 0 <= i < |source| ==> blocks[r.list].entries[i].pubKey == NULL)
      && (|source| == 0x1_0000_0001 ==> r.length == 1)
  {
    Narrowing(|source|);
  }

  /**
   `cCreateSparkMintRecipients` from the library call on: every failure leaves the heap as it was
   and records the reason. A returned list holds the recipients as far as its `int` length goes, and
   no other block is new.
   */
  method CreateRecipients(heap: Heap, library: Library<seq<Recipient>>, outOfMemory: string)
    returns (root: Ptr, ghost at: Places)
    requires heap.Valid()
    modifies heap
    ensures heap.Valid()
    ensures root == NULL ==> heap.blocks == old(heap.blocks)
    ensures root == NULL && library.Returns? ==> heap.starved
    ensures root == NULL ==> heap.lastError == Recorded(Reason(library, outOfMemory))
    ensures root != NULL ==>
      && library.Returns? && heap.lastError == old(heap.lastError)
      && Extends(old(heap.blocks), heap.blocks, at.Keys)
      && ListOk(heap.blocks, root, at) && Represents(heap.blocks, root, library.value)
  {
    root, at := NULL, map[];
    if library.Returns? {
      root, at := BuildList(heap, library.value);
    }
    if root == NULL {
      FailWithException(heap, library, outOfMemory);
    }
  }
}
