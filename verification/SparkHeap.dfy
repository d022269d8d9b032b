/**
 The C heap as the Spark wrapper uses it (`flutter_libsparkmobile.cpp`, `structs.h`): a set of
 live blocks. Any allocation may fail, and only live blocks may be released.
 */
module SparkHeap {
  import opened Common

  /** An address; 0 is the null pointer. */
  type Ptr = nat

  const NULL: Ptr := 0

  // The structures of structs.h that are allocated as blocks, with their pointers and lengths.

  datatype AggregateCoin = AggregateCoin(
    typ: int, diversifier: nat, value: nat,
    address: Ptr, memo: Ptr, memoLength: int, lTagHash: Ptr,
    encryptedDiversifier: Ptr, encryptedDiversifierLength: int,
    serial: Ptr, serialLength: int, nonceHex: Ptr, nonceHexLength: int)

  datatype CRecipient = CRecipient(pubKey: Ptr, pubKeyLength: int, amount: nat, subtractFee: bool)

  datatype RecipientList = RecipientList(list: Ptr, length: int)

  datatype DataStream = DataStream(data: Ptr, length: int)

  datatype UsedCoin = UsedCoin(serializedCoin: Ptr, serializedCoinContext: Ptr, groupId: int, height: int)

  datatype OutputScript = OutputScript(bytes: Ptr, length: int)

  datatype SpendResult = SpendResult(
    data: Ptr, dataLength: int, outputScripts: Ptr, outputScriptsLength: int,
    usedCoins: Ptr, usedCoinsLength: int, fee: int, isError: bool)

  /** The contents of one block. */
  datatype Block =
    | Bytes(data: seq<byte>)
    | Coin(coin: AggregateCoin)
    | Recipients(recipients: RecipientList)
    | RecipientArray(entries: seq<CRecipient>)
    | Stream(stream: DataStream)
    | Spend(result: SpendResult)
    | CoinArray(coins: seq<UsedCoin>)
    | ScriptArray(scripts: seq<OutputScript>)

  type Blocks = map<Ptr, Block>

  /** What `calloc` leaves in a new structure or array. */
  function ZeroCoin(): AggregateCoin {
    AggregateCoin(0, 0, 0, NULL, NULL, 0, NULL, NULL, 0, NULL, 0, NULL, 0)
  }

  function ZeroSpend(): SpendResult {
    SpendResult(NULL, 0, NULL, 0, NULL, 0, 0, false)
  }

  /** A `size_t` stored in an `int`. */
  function ToInt32(n: nat): (r: int)
    ensures n < 0x8000_0000 ==> r == n
    ensures r >= 0 ==> r <= n
  {
    var low := n % 0x1_0000_0000;
    if low < 0x8000_0000 then low else low - 0x1_0000_0000
  }

  /** A count whose `int` is negative. */
  predicate TooMany(n: nat) {
    n % 0x1_0000_0000 >= 0x8000_0000
  }

  /** What a count becomes: itself below 2^31, negative or cut otherwise. */
  lemma Narrowing(n: nat)
    ensures ToInt32(n) == n <==> n < 0x8000_0000
    ensures ToInt32(n) < 0 <==> TooMany(n)
    ensures -0x8000_0000 <= ToInt32(n) < 0x8000_0000 && (n - ToInt32(n)) % 0x1_0000_0000 == 0
  {
  }

  /** `allocate(count)` makes room for at least one element. */
  function Room(count: nat): (r: nat)
    ensures r >= 1 && r >= count && (count >= 1 ==> r == count)
  {
    if count == 0 then 1 else count
  }

  /** The bytes are those of the text, in order. */
  predicate HoldsText(data: seq<byte>, s: string) {
    |data| == |s| && forall i :: 0 <= i < |s| ==> data[i] == s[i] as int % 256
  }

  /** The bytes of a C text, whose characters have codes below 256. */
  function Octets(s: string): (r: seq<byte>)
    ensures HoldsText(r, s)
  {
    if s == "" then [] else [s[0] as int % 256] + Octets(s[1..])
  }

  /** What `setLastError` leaves in the buffer of 512 bytes, up to its NUL. */
  function Recorded(message: string): (r: string)
    ensures message == "" ==> r == "Unknown native error"
    ensures message != "" ==> r <= message && |r| < 512 && (|message| < 512 ==> r == message)
    ensures |message| >= 512 ==> |r| == 511
  {
    if message == "" then "Unknown native error"
    else if |message| < 512 then message
    else message[..511]
  }

  /** How often a loop up to an `int` length turns. */
  function Loops(length: int): nat {
    if length < 0 then 0 else length
  }

  class Heap {
    var blocks: Blocks
    var next: Ptr
    var lastError: string

    /** Whether an allocation has failed. */
    var starved: bool

    ghost predicate Valid()
      reads this
    {
      NULL < next && NULL !in blocks && forall p :: p in blocks ==> p < next
    }

    constructor ()
      ensures Valid() && blocks == map[] && lastError == "" && !starved
    {
      blocks, next, lastError, starved := map[], 1, "", false;
    }

    /** `malloc` or `calloc` of a block with the given contents; null when memory runs out. */
    method Allocate(b: Block) returns (p: Ptr)
      requires Valid()
      modifies this`blocks, this`next, this`starved
      ensures Valid()
      ensures (p == NULL || old(starved)) ==> starved
      ensures p == NULL ==> blocks == old(blocks)
      ensures p != NULL ==> p !in old(blocks) && blocks == old(blocks)[p := b]
    {
      var exhausted: bool := *;
      if exhausted {
        starved := true;
        return NULL;
      }
      p := next;
      next := next + 1;
      blocks := blocks[p := b];
    }

    /** `setLastError`, called with the text of an exception. */
    method SetLastError(message: string)
      modifies this`lastError
      ensures lastError == Recorded(message)
    {
      if message == "" {
        lastError := "Unknown native error";
      } else {
        lastError := message[..if |message| < 512 then |message| else 511];
      }
    }

    method ClearLastError()
      modifies this`lastError
      ensures lastError == ""
    {
      lastError := "";
    }

    /** `free`: of the null pointer, or of a live block. */
    method Free(p: Ptr)
      requires Valid() && (p == NULL || p in blocks)
      modifies this`blocks, this`next
      ensures Valid() && blocks == old(blocks) - {p}
    {
      blocks := blocks - {p};
    }

    /** Assigns the contents of a live block. */
    method Store(p: Ptr, b: Block)
      requires Valid() && p in blocks
      modifies this`blocks, this`next
      ensures Valid() && blocks == old(blocks)[p := b]
    {
      blocks := blocks[p := b];
    }

    /** A request that no memory can meet. */
    method Refuse()
      modifies this`starved
      ensures starved
    {
      starved := true;
    }

    /** `copyBytes`. */
    method CopyBytes(source: seq<byte>) returns (p: Ptr)
      requires Valid()
      modifies this`blocks, this`next, this`starved
      ensures Valid()
      ensures (p == NULL || old(starved)) ==> starved
      ensures p == NULL ==> blocks == old(blocks)
      ensures p != NULL ==> p !in old(blocks) && blocks == old(blocks)[p := Bytes(source)]
    {
      p := Allocate(Bytes(source));
    }

    /** `copyString`: the characters and a NUL. */
    method CopyString(value: seq<byte>) returns (p: Ptr)
      requires Valid()
      modifies this`blocks, this`next, this`starved
      ensures Valid()
      ensures (p == NULL || old(starved)) ==> starved
      ensures p == NULL ==> blocks == old(blocks)
      ensures p != NULL ==> p !in old(blocks) && blocks == old(blocks)[p := Bytes(value + [0])]
    {
      p := Allocate(Bytes(value + [0]));
    }
  }

  predicate NoNul(s: seq<byte>) {
    forall k :: 0 <= k < |s| ==> s[k] != 0
  }

  /** What a reader of a C string sees in a block: the bytes before the first NUL. */
  function CText(data: seq<byte>): (t: seq<byte>)
    ensures t <= data && NoNul(t) && (|t| < |data| ==> data[|t|] == 0)
  {
    if data == [] || data[0] == 0 then [] else [data[0]] + CText(data[1..])
  }

  /** A copied string reads back as the value exactly when the value has no NUL of its own. */
  lemma {:induction false} CopiedStringReadsBack(value: seq<byte>)
    ensures CText(value + [0]) == value <==> NoNul(value)
  {
    if value != [] {
      var rest := value[1..];
      CopiedStringReadsBack(rest);
      assert (value + [0])[1..] == rest + [0];
      assert value == [value[0]] + rest;
      assert NoNul(value) <==> value[0] != 0 && NoNul(rest);
    }
  }

  /** The blocks `now` are those of `was`, unchanged, and the blocks in `owned`. */
  ghost predicate Extends(was: Blocks, now: Blocks, owned: set<Ptr>) {
    && owned !! was.Keys && now.Keys == was.Keys + owned
    && forall p :: p in was ==> now[p] == was[p]
  }

  /** Releasing what was added gives back the blocks there were. */
  lemma ReleaseRestores(was: Blocks, now: Blocks, owned: set<Ptr>)
    requires Extends(was, now, owned)
    ensures now - owned == was
  {
  }

  /** What a library call that the wrapper does not control does. */
  datatype Library<T> = Returns(value: T) | ThrowsException(message: string) | ThrowsOther

  /** The text that `failWithException` records, where running out of memory throws `outOfMemory`. */
  function Reason<T>(library: Library<T>, outOfMemory: string): string {
    match library
    case Returns(_) => outOfMemory
    case ThrowsException(message) => message
    case ThrowsOther => "Unknown native exception"
  }

  /** The text of the exception is recorded, as far as it fits; for anything else that is thrown, a fixed text. */
  lemma ReasonText<T>(library: Library<T>, outOfMemory: string)
    ensures var r := Recorded(Reason(library, outOfMemory));
      match library
      case Returns(_) => outOfMemory != "" ==> r <= outOfMemory && (|outOfMemory| <= 511 ==> r == outOfMemory)
      case ThrowsException(message) => message != "" ==> r <= message && (|message| <= 511 ==> r == message)
      case ThrowsOther => r == "Unknown native exception"
  {
  }

  /** `failWithException`. */
  method FailWithException<T>(heap: Heap, library: Library<T>, outOfMemory: string)
    modifies heap`lastError
    ensures heap.lastError == Recorded(Reason(library, outOfMemory))
  {
    match library {
      case Returns(_) => heap.SetLastError(outOfMemory);
      case ThrowsException(message) => heap.SetLastError(message);
      case ThrowsOther => heap.SetLastError("Unknown native exception");
    }
  }
}
