/**
 The recovered coin of `idAndRecoverCoinByFullViewKey`: a structure with six blocks of its own,
 built with any allocation failing and released by `freeCoinData`.
 */
module SparkCoin {
  import opened Common
  import opened SparkHeap

  /** What identifying the coin with the incoming view key gives. */
  datatype Identified = Identified(typ: int, i: nat, v: nat, memo: seq<byte>, d: seq<byte>)

  /** What recovering it with the full view key gives; the texts are without their NUL. */
  datatype Recovered = Recovered(address: seq<byte>, lTagHash: seq<byte>, nonceHex: seq<byte>, serial: seq<byte>)

  /** The inner `try` lets only `bad_alloc` through. */
  datatype Identification = OutOfMemory | Outcome(outcome: Library<Identified>)

  datatype Place = Root | Address | Memo | LTagHash | Diversifier | Nonce | Serial

  type Places = map<Ptr, Place>

  /** The block that stands at a place. */
  function PtrAt(root: Ptr, coin: AggregateCoin, place: Place): Ptr {
    match place
    case Root => root
    case Address => coin.address
    case Memo => coin.memo
    case LTagHash => coin.lTagHash
    case Diversifier => coin.encryptedDiversifier
    case Nonce => coin.nonceHex
    case Serial => coin.serial
  }

  /** Assigns one pointer of the structure. */
  function WithPtr(coin: AggregateCoin, place: Place, p: Ptr): AggregateCoin {
    match place
    case Root => coin
    case Address => coin.(address := p)
    case Memo => coin.(memo := p)
    case LTagHash => coin.(lTagHash := p)
    case Diversifier => coin.(encryptedDiversifier := p)
    case Nonce => coin.(nonceHex := p)
    case Serial => coin.(serial := p)
  }

  /** A structure that may be partly built: `at` holds exactly its blocks, each at its one place. */
  ghost predicate CoinOk(blocks: Blocks, root: Ptr, at: Places) {
    && root != NULL && root in blocks && blocks[root].Coin?
    && (forall place :: var p := PtrAt(root, blocks[root].coin, place);
          p != NULL ==> p in at && at[p] == place && p in blocks)
    && (forall p :: p in at ==> p != NULL && PtrAt(root, blocks[root].coin, at[p]) == p)
  }

  /** The bytes each block is made from. */
  function Content(a: Identified, b: Recovered, place: Place): seq<byte> {
    match place
    case Root => []
    case Address => b.address
    case Memo => a.memo
    case LTagHash => b.lTagHash
    case Diversifier => a.d
    case Nonce => b.nonceHex
    case Serial => b.serial
  }

  /** The places that are filled by `copyString`; the others are filled by `copyBytes`. */
  predicate IsText(place: Place) {
    place == Address || place == Memo || place == LTagHash || place == Nonce
  }

  /** The bytes each block is to hold. */
  function TextOf(a: Identified, b: Recovered, place: Place): seq<byte> {
    if IsText(place) then Content(a, b, place) + [0] else Content(a, b, place)
  }

  /** The finished structure: scalars, lengths and all six blocks. */
  ghost predicate Represents(blocks: Blocks, root: Ptr, a: Identified, b: Recovered) {
    && root in blocks && blocks[root].Coin?
    && var coin := blocks[root].coin;
      && coin.typ == a.typ && coin.diversifier == a.i && coin.value == a.v
      && coin.memoLength == ToInt32(|a.memo|) && coin.encryptedDiversifierLength == ToInt32(|a.d|)
      && coin.nonceHexLength == ToInt32(|b.nonceHex|) && coin.serialLength == ToInt32(|b.serial|)
      && forall place :: place != Root ==>
           PtrAt(root, coin, place) in blocks && blocks[PtrAt(root, coin, place)] == Bytes(TextOf(a, b, place))
  }

  /** Field by field: which text stands under which pointer, and which of them end in a NUL. */
  lemma FieldsHold(blocks: Blocks, root: Ptr, a: Identified, b: Recovered)
    requires Represents(blocks, root, a, b)
    ensures var coin := blocks[root].coin;
      && coin.address in blocks && blocks[coin.address] == Bytes(b.address + [0])
      && coin.memo in blocks && blocks[coin.memo] == Bytes(a.memo + [0])
      && coin.lTagHash in blocks && blocks[coin.lTagHash] == Bytes(b.lTagHash + [0])
      && coin.encryptedDiversifier in blocks && blocks[coin.encryptedDiversifier] == Bytes(a.d)
      && coin.nonceHex in blocks && blocks[coin.nonceHex] == Bytes(b.nonceHex + [0])
      && coin.serial in blocks && blocks[coin.serial] == Bytes(b.serial)
  {
    var coin := blocks[root].coin;
    assert PtrAt(root, coin, Address) in blocks && PtrAt(root, coin, Memo) in blocks;
    assert PtrAt(root, coin, LTagHash) in blocks && PtrAt(root, coin, Diversifier) in blocks;
    assert PtrAt(root, coin, Nonce) in blocks && PtrAt(root, coin, Serial) in blocks;
  }

  /** A reader of the finished structure sees every text that has no NUL, and the whole memo by its length. */
  lemma TextsReadBack(blocks: Blocks, root: Ptr, a: Identified, b: Recovered, place: Place)
    requires Represents(blocks, root, a, b) && IsText(place)
    ensures var p := PtrAt(root, blocks[root].coin, place);
      && p in blocks && blocks[p].Bytes?
      && (CText(blocks[p].data) == Content(a, b, place) <==> NoNul(Content(a, b, place)))
    ensures 0 <= blocks[root].coin.memoLength ==>
      var p := blocks[root].coin.memo;
      && p in blocks && blocks[p].Bytes? && blocks[root].coin.memoLength < |blocks[p].data|
      && (|a.memo| < 0x8000_0000 ==> blocks[p].data[..blocks[root].coin.memoLength] == a.memo)
  {
    CopiedStringReadsBack(Content(a, b, place));
    assert PtrAt(root, blocks[root].coin, Memo) == blocks[root].coin.memo;
    assert (a.memo + [0])[..|a.memo|] == a.memo;
  }

  /** The blocks are the `was` ones and the structure, and whatever text is there is right. */
  ghost predicate Building(was: Blocks, now: Blocks, root: Ptr, at: Places, a: Identified, b: Recovered) {
    && Extends(was, now, at.Keys) && CoinOk(now, root, at)
    && forall place :: place != Root && PtrAt(root, now[root].coin, place) != NULL ==>
         now[PtrAt(root, now[root].coin, place)] == Bytes(TextOf(a, b, place))
  }

  lemma OnePtr(root: Ptr, coin: AggregateCoin, place: Place, p: Ptr)
    requires place != Root
    ensures forall other ::
      PtrAt(root, WithPtr(coin, place, p), other) == if other == place then p else PtrAt(root, coin, other)
  {
  }

  lemma PlaceText(was: Blocks, now: Blocks, root: Ptr, at: Places, a: Identified, b: Recovered, place: Place, p: Ptr)
    requires Building(was, now, root, at, a, b)
    requires place != Root && PtrAt(root, now[root].coin, place) == NULL && p != NULL && p !in now
    ensures Building(was, now[p := Bytes(TextOf(a, b, place))][root := Coin(WithPtr(now[root].coin, place, p))],
                     root, at[p := place], a, b)
  {
    assert PtrAt(root, now[root].coin, Root) == root;
    assert root in at && p !in at;
    OnePtr(root, now[root].coin, place, p);
  }

  /** Changing scalars only. */
  lemma ChangeScalars(was: Blocks, now: Blocks, root: Ptr, at: Places, a: Identified, b: Recovered,
                      coin': AggregateCoin)
    requires Building(was, now, root, at, a, b)
    requires forall place :: PtrAt(root, coin', place) == PtrAt(root, now[root].coin, place)
    ensures Building(was, now[root := Coin(coin')], root, at, a, b)
  {
    assert PtrAt(root, now[root].coin, Root) == root;
    assert root in at;
  }

  /** `copyBytes` or `copyString` into one pointer of the structure. */
  method PutText(heap: Heap, root: Ptr, place: Place, a: Identified, b: Recovered, ghost was: Blocks, ghost at: Places)
    returns (ok: bool, ghost at': Places)
    requires heap.Valid() && Building(was, heap.blocks, root, at, a, b)
    requires place != Root && PtrAt(root, heap.blocks[root].coin, place) == NULL
    modifies heap`blocks, heap`next, heap`starved
    ensures heap.Valid() && Building(was, heap.blocks, root, at', a, b)
    ensures (!ok || old(heap.starved)) ==> heap.starved
    ensures ok ==> exists p ::
      p != NULL && heap.blocks[root].coin == WithPtr(old(heap.blocks[root].coin), place, p)
  {
    ghost var now := heap.blocks;
    var p;
    if IsText(place) {
      p := heap.CopyString(Content(a, b, place));
    } else {
      p := heap.CopyBytes(Content(a, b, place));
    }
    if p == NULL {
      return false, at;
    }
    assert p != root;
    PlaceText(was, now, root, at, a, b, place, p);
    var coin := WithPtr(heap.blocks[root].coin, place, p);
    heap.Store(root, Coin(coin));
    ok, at' := true, at[p := place];
  }

  /** Assigns the scalars that go with the pointers. */
  method PutScalars(heap: Heap, root: Ptr, coin: AggregateCoin, a: Identified, b: Recovered,
                    ghost was: Blocks, ghost at: Places)
    requires heap.Valid() && Building(was, heap.blocks, root, at, a, b)
    requires forall place :: PtrAt(root, coin, place) == PtrAt(root, heap.blocks[root].coin, place)
    modifies heap`blocks, heap`next
    ensures heap.Valid() && Building(was, heap.blocks, root, at, a, b)
    ensures heap.blocks[root].coin == coin
  {
    ChangeScalars(was, heap.blocks, root, at, a, b, coin);
    heap.Store(root, Coin(coin));
  }

  /** Assigns scalars, then one pointer. */
  method PutField(heap: Heap, root: Ptr, coin: AggregateCoin, place: Place, a: Identified, b: Recovered,
                  ghost was: Blocks, ghost at: Places) returns (ok: bool, ghost at': Places)
    requires heap.Valid() && Building(was, heap.blocks, root, at, a, b)
    requires forall place :: PtrAt(root, coin, place) == PtrAt(root, heap.blocks[root].coin, place)
    requires place != Root && PtrAt(root, coin, place) == NULL
    modifies heap`blocks, heap`next, heap`starved
    ensures heap.Valid() && Building(was, heap.blocks, root, at', a, b)
    ensures (!ok || old(heap.starved)) ==> heap.starved
    ensures ok ==> exists p :: p != NULL && heap.blocks[root].coin == WithPtr(coin, place, p)
  {
    PutScalars(heap, root, coin, a, b, was, at);
    ok, at' := PutText(heap, root, place, a, b, was, at);
  }

  /** The assignments up to the encrypted diversifier. */
  method FillFirst(heap: Heap, root: Ptr, a: Identified, b: Recovered, ghost was: Blocks, ghost start: Places)
    returns (ok: bool, ghost at: Places)
    requires heap.Valid() && Building(was, heap.blocks, root, start, a, b)
    requires heap.blocks[root].coin == ZeroCoin()
    modifies heap`blocks, heap`next, heap`starved
    ensures heap.Valid() && Building(was, heap.blocks, root, at, a, b)
    ensures (!ok || old(heap.starved)) ==> heap.starved
    ensures ok ==> FirstHalf(heap.blocks[root].coin, a)
  {
    var coin := ZeroCoin().(typ := a.typ, diversifier := a.i, value := a.v);
    ok, at := PutField(heap, root, coin, Address, a, b, was, start);
    if !ok {
      return;
    }
    coin := heap.blocks[root].coin.(memoLength := ToInt32(|a.memo|));
    ok, at := PutField(heap, root, coin, Memo, a, b, was, at);
    if !ok {
      return;
    }
    ok, at := PutText(heap, root, LTagHash, a, b, was, at);
  }

  predicate FirstHalf(coin: AggregateCoin, a: Identified) {
    && coin.typ == a.typ && coin.diversifier == a.i && coin.value == a.v && coin.memoLength == ToInt32(|a.memo|)
    && coin.address != NULL && coin.memo != NULL && coin.lTagHash != NULL
    && coin.encryptedDiversifier == coin.nonceHex == coin.serial == NULL
  }

  predicate Finished(coin: AggregateCoin, a: Identified, b: Recovered) {
    && coin.typ == a.typ && coin.diversifier == a.i && coin.value == a.v && coin.memoLength == ToInt32(|a.memo|)
    && coin.encryptedDiversifierLength == ToInt32(|a.d|)
    && coin.nonceHexLength == ToInt32(|b.nonceHex|) && coin.serialLength == ToInt32(|b.serial|)
    && coin.address != NULL && coin.memo != NULL && coin.lTagHash != NULL
    && coin.encryptedDiversifier != NULL && coin.nonceHex != NULL && coin.serial != NULL
  }

  lemma FinishedRepresents(was: Blocks, now: Blocks, root: Ptr, at: Places, a: Identified, b: Recovered)
    requires Building(was, now, root, at, a, b) && Finished(now[root].coin, a, b)
    ensures Represents(now, root, a, b)
  {
  }

  predicate SerialAdded(was: AggregateCoin, now: AggregateCoin, length: int) {
    now.serial != NULL && now == was.(serial := now.serial, serialLength := length)
  }

  /** The last pointer and its length. */
  method PutSerial(heap: Heap, root: Ptr, a: Identified, b: Recovered, ghost was: Blocks, ghost start: Places)
    returns (ok: bool, ghost at: Places)
    requires heap.Valid() && Building(was, heap.blocks, root, start, a, b)
    requires heap.blocks[root].coin.serial == NULL
    modifies heap`blocks, heap`next, heap`starved
    ensures heap.Valid() && Building(was, heap.blocks, root, at, a, b)
    ensures (!ok || old(heap.starved)) ==> heap.starved
    ensures ok ==> SerialAdded(old(heap.blocks[root].coin), heap.blocks[root].coin, ToInt32(|b.serial|))
  {
    ok, at := PutText(heap, root, Serial, a, b, was, start);
    if ok {
      var coin := heap.blocks[root].coin.(serialLength := ToInt32(|b.serial|));
      PutScalars(heap, root, coin, a, b, was, at);
    }
  }

  /** The remaining assignments. */
  method FillSecond(heap: Heap, root: Ptr, a: Identified, b: Recovered, ghost was: Blocks, ghost start: Places)
    returns (ok: bool, ghost at: Places)
    requires heap.Valid() && Building(was, heap.blocks, root, start, a, b)
    requires FirstHalf(heap.blocks[root].coin, a)
    modifies heap`blocks, heap`next, heap`starved
    ensures heap.Valid() && Building(was, heap.blocks, root, at, a, b)
    ensures (!ok || old(heap.starved)) ==> heap.starved
    ensures ok ==> Finished(heap.blocks[root].coin, a, b)
  {
    ok, at := PutText(heap, root, Diversifier, a, b, was, start);
    if !ok {
      return;
    }
    var coin := heap.blocks[root].coin.(
      encryptedDiversifierLength := ToInt32(|a.d|), nonceHexLength := ToInt32(|b.nonceHex|));
    ok, at := PutField(heap, root, coin, Nonce, a, b, was, at);
    if !ok {
      return;
    }
    ok, at := PutSerial(heap, root, a, b, was, at);
  }

  /** The turn in which `freeCoinData` releases each place. */
  function Turn(place: Place): nat {
    match place
    case Address => 0
    case Memo => 1
    case LTagHash => 2
    case Diversifier => 3
    case Nonce => 4
    case Serial => 5
    case Root => 6
  }

  /** The blocks of the first `n` turns are gone, and no other. */
  ghost predicate Released(was: Blocks, now: Blocks, at: Places, n: nat) {
    && now.Keys <= was.Keys
    && forall p :: p in was ==>
         if p in at && Turn(at[p]) < n then p !in now else p in now && now[p] == was[p]
  }

  method FreePlace(heap: Heap, root: Ptr, place: Place, p: Ptr, ghost was: Blocks, ghost at: Places)
    requires heap.Valid() && CoinOk(was, root, at) && Released(was, heap.blocks, at, Turn(place)) && NULL !in was
    requires p == PtrAt(root, was[root].coin, place)
    modifies heap`blocks, heap`next
    ensures heap.Valid() && Released(was, heap.blocks, at, Turn(place) + 1)
  {
    heap.Free(p);
  }

  /** The first three of the six. */
  method FreeTexts(heap: Heap, root: Ptr, coin: AggregateCoin, ghost was: Blocks, ghost at: Places)
    requires heap.Valid() && CoinOk(was, root, at) && Released(was, heap.blocks, at, 0) && NULL !in was
    requires coin == was[root].coin
    modifies heap`blocks, heap`next
    ensures heap.Valid() && Released(was, heap.blocks, at, 3)
  {
    FreePlace(heap, root, Address, coin.address, was, at);
    FreePlace(heap, root, Memo, coin.memo, was, at);
    FreePlace(heap, root, LTagHash, coin.lTagHash, was, at);
  }

  /** `freeCoinData`: releases exactly the blocks of the structure, each once. */
  method FreeCoinData(heap: Heap, root: Ptr, ghost at: Places)
    requires heap.Valid() && (root == NULL || CoinOk(heap.blocks, root, at))
    modifies heap`blocks, heap`next
    ensures heap.Valid()
    ensures heap.blocks == if root == NULL then old(heap.blocks) else old(heap.blocks) - at.Keys
  {
    if root == NULL {
      return;
    }
    var coin := heap.blocks[root].coin;
    ghost var was := heap.blocks;
    FreeTexts(heap, root, coin, was, at);
    FreePlace(heap, root, Diversifier, coin.encryptedDiversifier, was, at);
    FreePlace(heap, root, Nonce, coin.nonceHex, was, at);
    FreePlace(heap, root, Serial, coin.serial, was, at);
    FreePlace(heap, root, Root, root, was, at);
    AllReleased(was, heap.blocks, at);
  }

  lemma AllReleased(was: Blocks, now: Blocks, at: Places)
    requires Released(was, now, at, 7)
    ensures now == was - at.Keys
  {
  }

  /** Builds the structure, or gives back everything and returns null. */
  method BuildCoin(heap: Heap, a: Identified, b: Recovered) returns (root: Ptr, ghost at: Places)
    requires heap.Valid()
    modifies heap`blocks, heap`next, heap`starved
    ensures heap.Valid()
    ensures (root == NULL || old(heap.starved)) ==> heap.starved
    ensures root == NULL ==> heap.blocks == old(heap.blocks)
    ensures root != NULL ==>
      && Extends(old(heap.blocks), heap.blocks, at.Keys)
      && CoinOk(heap.blocks, root, at) && Represents(heap.blocks, root, a, b)
  {
    at := map[];
    ghost var was := heap.blocks;
    root := heap.Allocate(Coin(ZeroCoin()));
    if root == NULL {
      return;
    }
    at := map[root := Root];
    var ok;
    ok, at := FillFirst(heap, root, a, b, was, at);
    if ok {
      ok, at := FillSecond(heap, root, a, b, was, at);
    }
    if ok {
      FinishedRepresents(was, heap.blocks, root, at, a, b);
    } else {
      ReleaseRestores(was, heap.blocks, at.Keys);
      FreeCoinData(heap, root, at);
      root := NULL;
    }
  }

  /** The recorded error when null is returned. */
  function ErrorAfter(identification: Identification, recovery: Library<Recovered>, outOfMemory: string): string {
    match identification
    case OutOfMemory => Recorded(outOfMemory)
    case Outcome(ThrowsException(_)) => ""
    case Outcome(ThrowsOther) => Recorded("Unknown native exception")
    case Outcome(Returns(_)) => Recorded(Reason(recovery, outOfMemory))
  }

  /** No error for a coin that is not ours; otherwise the text of what was thrown. */
  lemma ErrorTexts(identification: Identification, recovery: Library<Recovered>, outOfMemory: string)
    requires 0 < |outOfMemory| < 512
    ensures var e := ErrorAfter(identification, recovery, outOfMemory);
      && (identification.OutOfMemory? ==> e == outOfMemory)
      && (identification.Outcome? && identification.outcome.ThrowsException? ==> e == "")
      && (identification.Outcome? && identification.outcome.ThrowsOther? ==> e == "Unknown native exception")
      && (identification.Outcome? && identification.outcome.Returns? ==>
            && (recovery.ThrowsException? && 0 < |recovery.message| < 512 ==> e == recovery.message)
            && (recovery.ThrowsOther? ==> e == "Unknown native exception")
            && (recovery.Returns? ==> e == outOfMemory))
  {
  }

  /**
   `idAndRecoverCoinByFullViewKey` once its arguments are accepted: a coin that is not ours gives
   null and no error, every failure gives null with its reason, and neither leaves a block behind.
   */
  method IdAndRecoverCoin(heap: Heap, identification: Identification, recovery: Library<Recovered>, outOfMemory: string)
    returns (root: Ptr, ghost at: Places)
    requires heap.Valid()
    modifies heap
    ensures heap.Valid()
    ensures root == NULL ==> heap.blocks == old(heap.blocks)
    ensures root == NULL && identification.Outcome? && identification.outcome.Returns? && recovery.Returns? ==>
      heap.starved
    ensures root == NULL ==> heap.lastError == ErrorAfter(identification, recovery, outOfMemory)
    ensures root != NULL ==>
      && identification.Outcome? && identification.outcome.Returns? && recovery.Returns?
      && heap.lastError == old(heap.lastError)
      && Extends(old(heap.blocks), heap.blocks, at.Keys) && CoinOk(heap.blocks, root, at)
      && Represents(heap.blocks, root, identification.outcome.value, recovery.value)
  {
    root, at := NULL, map[];
    match identification {
      case OutOfMemory =>
        heap.SetLastError(outOfMemory);
      case Outcome(ThrowsException(_)) =>
        heap.ClearLastError();
      case Outcome(ThrowsOther) =>
        heap.SetLastError("Unknown native exception");
      case Outcome(Returns(a)) =>
        if recovery.Returns? {
          root, at := BuildCoin(heap, a, recovery.value);
        }
        if root == NULL {
          FailWithException(heap, recovery, outOfMemory);
        }
    }
  }
}
