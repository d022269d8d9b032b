/**
 The result of `cCreateSparkSpendTransaction`: a tree of blocks three levels deep, built with any
 allocation failing, replaced by an error result when it fails, and released by `freeSpendResult`.
 */
module SparkSpend {
  import opened Common
  import opened SparkHeap

  // What the library hands over.

  datatype SpentCoin = SpentCoin(height: int, groupId: int, coin: seq<byte>, context: seq<byte>)

  datatype Spend = Spend(fee: int, coins: seq<SpentCoin>, scripts: seq<seq<byte>>, data: seq<byte>)

  /** The place of a block in the tree. */
  datatype Place =
    | Result
    | Coins | CoinStream(i: nat) | CoinBytes(i: nat) | ContextStream(i: nat) | ContextBytes(i: nat)
    | Scripts | ScriptBytes(i: nat)
    | Data

  /** The place of the block that points here. */
  function Parent(place: Place): Place {
    match place
    case Result | Coins | Scripts | Data => Result
    case CoinStream(_) | ContextStream(_) => Coins
    case CoinBytes(i) => CoinStream(i)
    case ContextBytes(i) => ContextStream(i)
    case ScriptBytes(_) => Scripts
  }

  /** The pointer to a place, read from the block that holds it. */
  function Field(b: Block, place: Place): Ptr {
    match place
    case Result => NULL
    case Coins => if b.Spend? then b.result.usedCoins else NULL
    case Scripts => if b.Spend? then b.result.outputScripts else NULL
    case Data => if b.Spend? then b.result.data else NULL
    case CoinStream(i) => if b.CoinArray? && i < |b.coins| then b.coins[i].serializedCoin else NULL
    case ContextStream(i) => if b.CoinArray? && i < |b.coins| then b.coins[i].serializedCoinContext else NULL
    case CoinBytes(_) => if b.Stream? then b.stream.data else NULL
    case ContextBytes(_) => if b.Stream? then b.stream.data else NULL
    case ScriptBytes(i) => if b.ScriptArray? && i < |b.scripts| then b.scripts[i].bytes else NULL
  }

  /** Which block stands where: `at` and `loc` are inverse, so no block has two places. */
  datatype Shape = Shape(root: Ptr, at: map<Ptr, Place>, loc: map<Place, Ptr>, n: nat, m: nat)

  predicate InRange(place: Place, n: nat, m: nat) {
    match place
    case Result | Coins | Scripts | Data => true
    case CoinStream(i) => i < n
    case ContextStream(i) => i < n
    case CoinBytes(i) => i < n
    case ContextBytes(i) => i < n
    case ScriptBytes(i) => i < m
  }

  /** The right type of block, with `n` coins and `m` scripts. */
  predicate KindOk(place: Place, b: Block, n: nat, m: nat) {
    match place
    case Result =>
      && b.Spend?
      && (b.result.usedCoins != NULL ==> Loops(b.result.usedCoinsLength) == n)
      && (b.result.outputScripts != NULL ==> Loops(b.result.outputScriptsLength) == m)
    case Coins => b.CoinArray? && |b.coins| == Room(n)
    case Scripts => b.ScriptArray? && |b.scripts| == Room(m)
    case CoinStream(_) | ContextStream(_) => b.Stream?
    case CoinBytes(_) | ContextBytes(_) | ScriptBytes(_) | Data => b.Bytes?
  }

  ghost predicate PlacesOk(blocks: Blocks, s: Shape) {
    && (forall place :: place in s.loc ==>
          && InRange(place, s.n, s.m) && Parent(place) in s.loc
          && s.loc[place] in s.at && s.at[s.loc[place]] == place
          && s.loc[place] != NULL && s.loc[place] in blocks
          && KindOk(place, blocks[s.loc[place]], s.n, s.m))
    && forall p :: p in s.at ==> s.at[p] in s.loc && s.loc[s.at[p]] == p
  }

  /**
   A tree that may be partly built: its blocks are exactly those of `s.at`, every pointer stored in
   one of them is null or leads to the block of its own place, and every block but the root is
   reached by such a pointer.
   */
  ghost predicate Tree(blocks: Blocks, s: Shape) {
    && Result in s.loc && s.loc[Result] == s.root
    && PlacesOk(blocks, s)
    && forall place :: place != Result && Parent(place) in s.loc ==>
         Field(blocks[s.loc[Parent(place)]], place) == if place in s.loc then s.loc[place] else NULL
  }

  // The contents.

  predicate CoinArrayRight(coins: seq<UsedCoin>, source: seq<SpentCoin>) {
    forall i :: 0 <= i < |coins| && i < |source| && coins[i].serializedCoin != NULL ==>
      coins[i].height == source[i].height && coins[i].groupId == source[i].groupId
  }

  predicate ScriptArrayRight(scripts: seq<OutputScript>, source: seq<seq<byte>>) {
    forall i :: 0 <= i < |scripts| && i < |source| && scripts[i].bytes != NULL ==>
      scripts[i].length == ToInt32(|source[i]|)
  }

  /** Whatever has been filled in at a place is what the source gives. */
  predicate Right(place: Place, b: Block, source: Spend) {
    match place
    case Result => b.Spend? ==>
      && (b.result.usedCoins != NULL ==>
            && b.result.fee == source.fee && !b.result.isError
            && b.result.usedCoinsLength == ToInt32(|source.coins|))
      && (b.result.outputScripts != NULL ==> b.result.outputScriptsLength == ToInt32(|source.scripts|))
      && (b.result.data != NULL ==> b.result.dataLength == ToInt32(|source.data|))
    case Coins => b.CoinArray? ==> CoinArrayRight(b.coins, source.coins)
    case Scripts => b.ScriptArray? ==> ScriptArrayRight(b.scripts, source.scripts)
    case CoinStream(i) => b.Stream? && i < |source.coins| && b.stream.data != NULL ==>
      b.stream.length == ToInt32(|source.coins[i].coin|)
    case ContextStream(i) => b.Stream? && i < |source.coins| && b.stream.data != NULL ==>
      b.stream.length == ToInt32(|source.coins[i].context|)
    case CoinBytes(i) => i < |source.coins| ==> b == Bytes(source.coins[i].coin)
    case ContextBytes(i) => i < |source.coins| ==> b == Bytes(source.coins[i].context)
    case ScriptBytes(i) => i < |source.scripts| ==> b == Bytes(source.scripts[i])
    case Data => b == Bytes(source.data)
  }

  ghost predicate Building(was: Blocks, now: Blocks, s: Shape, source: Spend) {
    && Extends(was, now, s.at.Keys) && Tree(now, s)
    && s.n == Loops(ToInt32(|source.coins|)) && s.m == Loops(ToInt32(|source.scripts|))
    && AllRight(now, s.loc, source)
  }

  ghost predicate AllRight(blocks: Blocks, loc: map<Place, Ptr>, source: Spend) {
    forall place :: place in loc ==> loc[place] in blocks && Right(place, blocks[loc[place]], source)
  }

  predicate StreamHolds(blocks: Blocks, p: Ptr, bytes: seq<byte>) {
    && p in blocks && blocks[p].Stream? && blocks[p].stream.length == ToInt32(|bytes|)
    && blocks[p].stream.data in blocks && blocks[blocks[p].stream.data] == Bytes(bytes)
  }

  predicate CoinHolds(blocks: Blocks, coin: UsedCoin, source: SpentCoin) {
    && coin.height == source.height && coin.groupId == source.groupId
    && StreamHolds(blocks, coin.serializedCoin, source.coin)
    && StreamHolds(blocks, coin.serializedCoinContext, source.context)
  }

  predicate ScriptHolds(blocks: Blocks, script: OutputScript, source: seq<byte>) {
    script.length == ToInt32(|source|) && script.bytes in blocks && blocks[script.bytes] == Bytes(source)
  }

  /** The finished tree, followed pointer by pointer. */
  ghost predicate Represents(blocks: Blocks, root: Ptr, source: Spend) {
    && root in blocks && blocks[root].Spend?
    && var r := blocks[root].result;
      && !r.isError && r.fee == source.fee
      && 0 <= r.usedCoinsLength == ToInt32(|source.coins|)
      && 0 <= r.outputScriptsLength == ToInt32(|source.scripts|)
      && r.dataLength == ToInt32(|source.data|) && r.data in blocks && blocks[r.data] == Bytes(source.data)
      && r.usedCoins in blocks && blocks[r.usedCoins].CoinArray?
      && (forall i :: 0 <= i < r.usedCoinsLength ==>
            && i < |blocks[r.usedCoins].coins|
            && CoinHolds(blocks, blocks[r.usedCoins].coins[i], source.coins[i]))
      && r.outputScripts in blocks && blocks[r.outputScripts].ScriptArray?
      && forall i :: 0 <= i < r.outputScriptsLength ==>
            && i < |blocks[r.outputScripts].scripts|
            && ScriptHolds(blocks, blocks[r.outputScripts].scripts[i], source.scripts[i])
  }

  // One pointer at a time.

  /** Assigns the pointer to a place in the block that holds it. */
  function WithPtr(b: Block, place: Place, p: Ptr): Block {
    match place
    case Result => b
    case Coins => if b.Spend? then Block.Spend(b.result.(usedCoins := p)) else b
    case Scripts => if b.Spend? then Block.Spend(b.result.(outputScripts := p)) else b
    case Data => if b.Spend? then Block.Spend(b.result.(data := p)) else b
    case CoinStream(i) =>
      if b.CoinArray? && i < |b.coins| then CoinArray(b.coins[i := b.coins[i].(serializedCoin := p)]) else b
    case ContextStream(i) =>
      if b.CoinArray? && i < |b.coins| then CoinArray(b.coins[i := b.coins[i].(serializedCoinContext := p)]) else b
    case CoinBytes(_) => if b.Stream? then Stream(b.stream.(data := p)) else b
    case ContextBytes(_) => if b.Stream? then Stream(b.stream.(data := p)) else b
    case ScriptBytes(i) =>
      if b.ScriptArray? && i < |b.scripts| then ScriptArray(b.scripts[i := b.scripts[i].(bytes := p)]) else b
  }

  lemma FieldWithPtr(b: Block, place: Place, p: Ptr, other: Place, n: nat, m: nat)
    requires place != Result && InRange(place, n, m) && KindOk(Parent(place), b, n, m)
    requires Parent(other) == Parent(place) && other != Result
    ensures Field(WithPtr(b, place, p), other) == if other == place then p else Field(b, other)
  {
  }

  /** No pointers in it yet. */
  ghost predicate Bare(b: Block) {
    forall place :: Field(b, place) == NULL
  }

  function Grown(s: Shape, place: Place, p: Ptr): Shape {
    s.(at := s.at[p := place], loc := s.loc[place := p])
  }

  /** A block `b` may be attached at `place`, at the free address `p`. */
  ghost predicate Fits(now: Blocks, s: Shape, place: Place, p: Ptr, b: Block) {
    && place !in s.loc && InRange(place, s.n, s.m) && Parent(place) in s.loc && s.loc[Parent(place)] in now
    && p != NULL && p !in now && Bare(b) && KindOk(place, b, s.n, s.m)
    && KindOk(Parent(place), WithPtr(now[s.loc[Parent(place)]], place, p), s.n, s.m)
  }

  function Attach(now: Blocks, holder: Ptr, place: Place, p: Ptr, b: Block): Blocks
    requires holder in now
  {
    now[p := b][holder := WithPtr(now[holder], place, p)]
  }

  lemma AttachedBlocks(now: Blocks, s: Shape, place: Place, p: Ptr, b: Block)
    requires Tree(now, s) && s.at.Keys <= now.Keys && Fits(now, s, place, p, b)
    ensures var now' := Attach(now, s.loc[Parent(place)], place, p, b);
      forall other :: other in s.loc && other != Parent(place) ==> now'[s.loc[other]] == now[s.loc[other]]
    ensures PlacesOk(Attach(now, s.loc[Parent(place)], place, p, b), Grown(s, place, p))
  {
    var holder := s.loc[Parent(place)];
    var now' := Attach(now, holder, place, p, b);
    assert p !in s.at && holder != p && s.at[holder] == Parent(place);
    forall other | other in s.loc && other != Parent(place)
      ensures now'[s.loc[other]] == now[s.loc[other]]
    {
      assert s.at[s.loc[other]] == other;
    }
  }

  lemma AttachedTree(now: Blocks, s: Shape, place: Place, p: Ptr, b: Block)
    requires Tree(now, s) && s.at.Keys <= now.Keys && Fits(now, s, place, p, b)
    ensures Tree(Attach(now, s.loc[Parent(place)], place, p, b), Grown(s, place, p))
  {
    var holder := s.loc[Parent(place)];
    var now' := Attach(now, holder, place, p, b);
    var s' := Grown(s, place, p);
    AttachedBlocks(now, s, place, p, b);
    assert Parent(place) != place;
    forall other | other != Result && Parent(other) in s'.loc
      ensures Field(now'[s'.loc[Parent(other)]], other) == if other in s'.loc then s'.loc[other] else NULL
    {
      if Parent(other) == Parent(place) {
        FieldWithPtr(now[holder], place, p, other, s.n, s.m);
      } else if Parent(other) == place {
        assert other !in s.loc;
      }
    }
  }

  lemma AttachedRight(now: Blocks, s: Shape, source: Spend, place: Place, p: Ptr, b: Block)
    requires Tree(now, s) && s.at.Keys <= now.Keys && Fits(now, s, place, p, b) && AllRight(now, s.loc, source)
    requires Right(place, b, source) && Right(Parent(place), WithPtr(now[s.loc[Parent(place)]], place, p), source)
    ensures AllRight(Attach(now, s.loc[Parent(place)], place, p, b), Grown(s, place, p).loc, source)
  {
    AttachedBlocks(now, s, place, p, b);
    assert Parent(place) != place;
  }

  /** A block attached at an empty place. */
  lemma Attached(was: Blocks, now: Blocks, s: Shape, source: Spend, place: Place, p: Ptr, b: Block)
    requires Building(was, now, s, source) && Fits(now, s, place, p, b)
    requires Right(place, b, source) && Right(Parent(place), WithPtr(now[s.loc[Parent(place)]], place, p), source)
    ensures Building(was, Attach(now, s.loc[Parent(place)], place, p, b), Grown(s, place, p), source)
  {
    AttachedTree(now, s, place, p, b);
    AttachedRight(now, s, source, place, p, b);
    AttachedExtends(was, now, s, place, p, b);
  }

  lemma AttachedExtends(was: Blocks, now: Blocks, s: Shape, place: Place, p: Ptr, b: Block)
    requires Extends(was, now, s.at.Keys) && Tree(now, s) && Fits(now, s, place, p, b)
    ensures Extends(was, Attach(now, s.loc[Parent(place)], place, p, b), Grown(s, place, p).at.Keys)
  {
    assert s.loc[Parent(place)] in s.at;
  }

  /** Scalars changed in the block of a place, its pointers kept. */
  lemma Rescaled(was: Blocks, now: Blocks, s: Shape, source: Spend, place: Place, b: Block)
    requires Building(was, now, s, source)
    requires place in s.loc && KindOk(place, b, s.n, s.m) && Right(place, b, source)
    requires forall other :: Field(b, other) == Field(now[s.loc[place]], other)
    ensures Building(was, now[s.loc[place] := b], s, source)
  {
    var now' := now[s.loc[place] := b];
    forall other | other in s.loc && other != place
      ensures now'[s.loc[other]] == now[s.loc[other]]
    {
      assert s.at[s.loc[other]] == other;
    }
    assert s.loc[place] in s.at;
    assert PlacesOk(now', s);
    forall other | other != Result && Parent(other) in s.loc
      ensures Field(now'[s.loc[Parent(other)]], other) == if other in s.loc then s.loc[other] else NULL
    {
    }
  }

  // Building, place after place.

  /** When each block is allocated. */
  function Turn(place: Place, n: nat, m: nat): nat {
    match place
    case Result => 0
    case Coins => 1
    case CoinStream(i) => 2 + 4 * i
    case CoinBytes(i) => 3 + 4 * i
    case ContextStream(i) => 4 + 4 * i
    case ContextBytes(i) => 5 + 4 * i
    case Scripts => 2 + 4 * n
    case ScriptBytes(i) => 3 + 4 * n + i
    case Data => 3 + 4 * n + m
  }

  /** The tree has exactly the blocks of the first `t` turns. */
  ghost predicate Progress(s: Shape, t: nat) {
    forall place :: place in s.loc <==> InRange(place, s.n, s.m) && Turn(place, s.n, s.m) < t
  }

  lemma NextTurn(s: Shape, place: Place, p: Ptr)
    requires InRange(place, s.n, s.m) && Progress(s, Turn(place, s.n, s.m))
    ensures Progress(Grown(s, place, p), Turn(place, s.n, s.m) + 1) && SameTree(s, Grown(s, place, p))
  {
  }

  lemma Stored(blocks: Blocks, s: Shape, place: Place)
    requires Tree(blocks, s) && place != Result && (place in s.loc || Parent(place) in s.loc)
    ensures Parent(place) in s.loc && s.loc[Parent(place)] in blocks
    ensures Field(blocks[s.loc[Parent(place)]], place) == if place in s.loc then s.loc[place] else NULL
  {
  }

  /** Once everything is allocated, the tree represents its source. */
  lemma AllRepresented(was: Blocks, now: Blocks, s: Shape, source: Spend)
    requires Building(was, now, s, source) && Progress(s, 4 + 4 * s.n + s.m)
    requires 0 <= ToInt32(|source.coins|) && 0 <= ToInt32(|source.scripts|)
    ensures Represents(now, s.root, source)
  {
    assert Result in s.loc && Coins in s.loc && Scripts in s.loc && Data in s.loc;
    var r := now[s.root].result;
    Stored(now, s, Coins);
    Stored(now, s, Scripts);
    Stored(now, s, Data);
    forall i | 0 <= i < r.usedCoinsLength
      ensures i < |now[r.usedCoins].coins| && i < |source.coins|
      ensures CoinHolds(now, now[r.usedCoins].coins[i], source.coins[i])
    {
      CoinRepresented(was, now, s, source, i);
    }
    forall i | 0 <= i < r.outputScriptsLength
      ensures i < |now[r.outputScripts].scripts| && i < |source.scripts|
      ensures ScriptHolds(now, now[r.outputScripts].scripts[i], source.scripts[i])
    {
      ScriptRepresented(was, now, s, source, i);
    }
  }

  lemma ScriptRepresented(was: Blocks, now: Blocks, s: Shape, source: Spend, i: nat)
    requires Building(was, now, s, source) && Progress(s, 4 + 4 * s.n + s.m) && i < s.m
    ensures i < |source.scripts| && Scripts in s.loc && s.loc[Scripts] in now && now[s.loc[Scripts]].ScriptArray?
    ensures i < |now[s.loc[Scripts]].scripts|
    ensures ScriptHolds(now, now[s.loc[Scripts]].scripts[i], source.scripts[i])
  {
    assert Scripts in s.loc && ScriptBytes(i) in s.loc;
    Stored(now, s, ScriptBytes(i));
  }

  /** `content` is to be held by the stream at `place`, in the byte block at `inner`. */
  predicate IsStream(place: Place, inner: Place, content: seq<byte>, source: Spend) {
    match place
    case CoinStream(i) => i < |source.coins| && inner == CoinBytes(i) && content == source.coins[i].coin
    case ContextStream(i) => i < |source.coins| && inner == ContextBytes(i) && content == source.coins[i].context
    case _ => false
  }

  lemma StreamRepresented(was: Blocks, now: Blocks, s: Shape, source: Spend, place: Place, inner: Place,
                          content: seq<byte>)
    requires Building(was, now, s, source) && IsStream(place, inner, content, source)
    requires place in s.loc && inner in s.loc
    ensures StreamHolds(now, s.loc[place], content)
  {
    Stored(now, s, inner);
  }

  /** The five blocks of a coin are there. */
  lemma CoinInPlace(s: Shape, i: nat)
    requires Progress(s, 4 + 4 * s.n + s.m) && i < s.n
    ensures Coins in s.loc && CoinStream(i) in s.loc && CoinBytes(i) in s.loc
    ensures ContextStream(i) in s.loc && ContextBytes(i) in s.loc
  {
  }

  /** The entry of the coin in the array. */
  lemma EntryRepresented(was: Blocks, now: Blocks, s: Shape, source: Spend, i: nat)
    requires Building(was, now, s, source) && i < s.n
    requires Coins in s.loc && CoinStream(i) in s.loc && ContextStream(i) in s.loc
    ensures i < |source.coins| && s.loc[Coins] in now && now[s.loc[Coins]].CoinArray?
    ensures i < |now[s.loc[Coins]].coins|
    ensures var coin := now[s.loc[Coins]].coins[i];
      && coin.height == source.coins[i].height && coin.groupId == source.coins[i].groupId
      && coin.serializedCoin == s.loc[CoinStream(i)] && coin.serializedCoinContext == s.loc[ContextStream(i)]
  {
    Stored(now, s, CoinStream(i));
    Stored(now, s, ContextStream(i));
  }

  lemma CoinRepresented(was: Blocks, now: Blocks, s: Shape, source: Spend, i: nat)
    requires Building(was, now, s, source) && Progress(s, 4 + 4 * s.n + s.m) && i < s.n
    ensures i < |source.coins| && Coins in s.loc && s.loc[Coins] in now && now[s.loc[Coins]].CoinArray?
    ensures i < |now[s.loc[Coins]].coins|
    ensures CoinHolds(now, now[s.loc[Coins]].coins[i], source.coins[i])
  {
    CoinInPlace(s, i);
    EntryRepresented(was, now, s, source, i);
    StreamRepresented(was, now, s, source, CoinStream(i), CoinBytes(i), source.coins[i].coin);
    StreamRepresented(was, now, s, source, ContextStream(i), ContextBytes(i), source.coins[i].context);
  }

  /** The block that is to hold the pointer keeps its kind and contents with it. */
  ghost predicate Ready(holder: Block, place: Place, s: Shape, source: Spend) {
    forall p :: p != NULL ==>
      KindOk(Parent(place), WithPtr(holder, place, p), s.n, s.m) &&
        Right(Parent(place), WithPtr(holder, place, p), source)
  }

  /** Stores the address of a new block in its holder; the new shape is the grown one. */
  method Hang(heap: Heap, holder: Ptr, place: Place, p: Ptr, b: Block, source: Spend, ghost was: Blocks,
              ghost now: Blocks, ghost s: Shape)
    requires heap.Valid() && p != NULL && p !in now && heap.blocks == now[p := b] && Building(was, now, s, source)
    requires InRange(place, s.n, s.m) && Progress(s, Turn(place, s.n, s.m))
    requires Parent(place) in s.loc && holder == s.loc[Parent(place)] && holder in now
    requires Bare(b) && KindOk(place, b, s.n, s.m) && Right(place, b, source)
    requires Ready(now[holder], place, s, source)
    modifies heap`blocks, heap`next
    ensures heap.Valid() && Building(was, heap.blocks, Grown(s, place, p), source)
    ensures p in heap.blocks && heap.blocks[p] == b
  {
    Attached(was, now, s, source, place, p, b);
    heap.Store(holder, WithPtr(heap.blocks[holder], place, p));
  }

  /** Allocates a block and stores its address in its holder. */
  method Put(heap: Heap, holder: Ptr, place: Place, b: Block, source: Spend, ghost was: Blocks, ghost s: Shape)
    returns (p: Ptr, ghost s': Shape)
    requires heap.Valid() && Building(was, heap.blocks, s, source)
    requires place != Result && InRange(place, s.n, s.m) && Progress(s, Turn(place, s.n, s.m))
    requires Parent(place) in s.loc && holder == s.loc[Parent(place)] && holder in heap.blocks
    requires Bare(b) && KindOk(place, b, s.n, s.m) && Right(place, b, source)
    requires Ready(heap.blocks[holder], place, s, source)
    modifies heap`blocks, heap`next, heap`starved
    ensures heap.Valid() && Building(was, heap.blocks, s', source)
    ensures (p == NULL || old(heap.starved)) ==> heap.starved
    ensures SameTree(s, s')
    ensures p != NULL ==>
      && place in s'.loc && s'.loc[place] == p && Progress(s', Turn(place, s.n, s.m) + 1)
      && p in heap.blocks && heap.blocks[p] == b
  {
    ghost var now := heap.blocks;
    p := heap.Allocate(b);
    if p == NULL {
      return p, s;
    }
    NextTurn(s, place, p);
    Hang(heap, holder, place, p, b, source, was, now, s);
    s' := Grown(s, place, p);
  }

  /** Assigns scalars in the block at a place. */
  method SetScalars(heap: Heap, p: Ptr, b: Block, source: Spend, ghost was: Blocks, ghost s: Shape, ghost place: Place)
    requires heap.Valid() && Building(was, heap.blocks, s, source)
    requires place in s.loc && p == s.loc[place] && p in heap.blocks && KindOk(place, b, s.n, s.m) &&
      Right(place, b, source)
    requires forall other :: Field(b, other) == Field(heap.blocks[p], other)
    modifies heap`blocks, heap`next
    ensures heap.Valid() && Building(was, heap.blocks, s, source) && heap.blocks == old(heap.blocks)[p := b]
  {
    Rescaled(was, heap.blocks, s, source, place, b);
    heap.Store(p, b);
  }

  function ZeroCoins(n: nat): (r: seq<UsedCoin>)
    ensures |r| == n && forall i :: 0 <= i < n ==> r[i] == UsedCoin(NULL, NULL, 0, 0)
  {
    if n == 0 then [] else ZeroCoins(n - 1) + [UsedCoin(NULL, NULL, 0, 0)]
  }

  function ZeroScripts(n: nat): (r: seq<OutputScript>)
    ensures |r| == n && forall i :: 0 <= i < n ==> r[i] == OutputScript(NULL, 0)
  {
    if n == 0 then [] else ZeroScripts(n - 1) + [OutputScript(NULL, 0)]
  }

  /** The same tree, with its arrays, and perhaps more blocks. */
  predicate SameTree(s: Shape, s': Shape) {
    && s'.root == s.root && s'.n == s.n && s'.m == s.m
    && (Coins in s.loc ==> Coins in s'.loc && s'.loc[Coins] == s.loc[Coins])
    && (Scripts in s.loc ==> Scripts in s'.loc && s'.loc[Scripts] == s.loc[Scripts])
  }

  lemma StreamFits(place: Place, inner: Place, content: seq<byte>, source: Spend, s: Shape)
    requires IsStream(place, inner, content, source) && InRange(place, s.n, s.m)
    ensures Parent(inner) == place && Parent(place) == Coins && inner != Result && place != Result
    ensures InRange(inner, s.n, s.m) && Turn(inner, s.n, s.m) == Turn(place, s.n, s.m) + 1
    ensures Bare(Stream(DataStream(NULL, 0))) && Bare(Bytes(content))
    ensures forall length :: KindOk(place, Stream(DataStream(NULL, length)), s.n, s.m)
    ensures forall length :: Right(place, Stream(DataStream(NULL, length)), source)
    ensures KindOk(inner, Bytes(content), s.n, s.m) && Right(inner, Bytes(content), source)
    ensures Ready(Stream(DataStream(NULL, ToInt32(|content|))), inner, s, source)
  {
  }

  lemma SameFields(length: int)
    ensures forall other :: Field(Stream(DataStream(NULL, length)), other) == Field(Stream(DataStream(NULL, 0)), other)
  {
  }

  /** The length of an empty stream. */
  method SetLength(heap: Heap, p: Ptr, ghost place: Place, ghost inner: Place, content: seq<byte>, source: Spend,
                   ghost was: Blocks, ghost s: Shape)
    requires heap.Valid() && Building(was, heap.blocks, s, source) && IsStream(place, inner, content, source)
    requires place in s.loc && p == s.loc[place] && p in heap.blocks && heap.blocks[p] == Stream(DataStream(NULL, 0))
    requires InRange(place, s.n, s.m)
    modifies heap`blocks, heap`next
    ensures heap.Valid() && Building(was, heap.blocks, s, source)
    ensures p in heap.blocks && heap.blocks[p] == Stream(DataStream(NULL, ToInt32(|content|)))
  {
    StreamFits(place, inner, content, source, s);
    SameFields(ToInt32(|content|));
    SetScalars(heap, p, Stream(DataStream(NULL, ToInt32(|content|))), source, was, s, place);
  }

  /** The length and the bytes of an empty stream. */
  method FillStream(heap: Heap, p: Ptr, ghost place: Place, inner: Place, content: seq<byte>, source: Spend,
                    ghost was: Blocks, ghost s: Shape) returns (ok: bool, ghost s': Shape)
    requires heap.Valid() && Building(was, heap.blocks, s, source) && IsStream(place, inner, content, source)
    requires place in s.loc && p == s.loc[place] && p in heap.blocks && heap.blocks[p] == Stream(DataStream(NULL, 0))
    requires InRange(place, s.n, s.m) && Progress(s, Turn(place, s.n, s.m) + 1)
    modifies heap`blocks, heap`next, heap`starved
    ensures heap.Valid() && Building(was, heap.blocks, s', source) && SameTree(s, s')
    ensures (!ok || old(heap.starved)) ==> heap.starved
    ensures ok ==> Progress(s', Turn(place, s.n, s.m) + 2)
  {
    SetLength(heap, p, place, inner, content, source, was, s);
    StreamFits(place, inner, content, source, s);
    var q;
    q, s' := Put(heap, p, inner, Bytes(content), source, was, s);
    ok := q != NULL;
  }

  /** A `CCDataStream` and its bytes, hung on an entry of the coin array. */
  method AddStream(heap: Heap, holder: Ptr, place: Place, inner: Place, content: seq<byte>, source: Spend,
                   ghost was: Blocks, ghost s: Shape) returns (ok: bool, ghost s': Shape)
    requires heap.Valid() && Building(was, heap.blocks, s, source)
    requires Coins in s.loc && holder == s.loc[Coins] && holder in heap.blocks
    requires InRange(place, s.n, s.m) && Progress(s, Turn(place, s.n, s.m)) && s.n <= |source.coins|
    requires IsStream(place, inner, content, source)
    requires Ready(heap.blocks[holder], place, s, source)
    modifies heap`blocks, heap`next, heap`starved
    ensures heap.Valid() && Building(was, heap.blocks, s', source) && SameTree(s, s')
    ensures (!ok || old(heap.starved)) ==> heap.starved
    ensures ok ==> Progress(s', Turn(place, s.n, s.m) + 2)
  {
    StreamFits(place, inner, content, source, s);
    var p;
    p, s' := Put(heap, holder, place, Stream(DataStream(NULL, 0)), source, was, s);
    if p == NULL {
      return false, s';
    }
    ghost var s1 := s';
    ok, s' := FillStream(heap, p, place, inner, content, source, was, s1);
  }

  /** Height and group of coin `i` may be assigned while it has no stream yet. */
  lemma CoinStarts(b: Block, i: nat, s: Shape, source: Spend)
    requires KindOk(Coins, b, s.n, s.m) && Right(Coins, b, source) && i < s.n <= |source.coins|
    requires Field(b, CoinStream(i)) == NULL
    ensures var coin := b.coins[i].(height := source.coins[i].height, groupId := source.coins[i].groupId);
      var b' := CoinArray(b.coins[i := coin]);
      && KindOk(Coins, b', s.n, s.m) && Right(Coins, b', source) && Ready(b', CoinStream(i), s, source)
      && forall other :: Field(b', other) == Field(b, other)
  {
  }

  lemma ContextReady(was: Blocks, now: Blocks, i: nat, s: Shape, source: Spend)
    requires Building(was, now, s, source) && Coins in s.loc && i < s.n
    ensures s.loc[Coins] in now && Ready(now[s.loc[Coins]], ContextStream(i), s, source)
  {
    var b := now[s.loc[Coins]];
    assert KindOk(Coins, b, s.n, s.m) && Right(Coins, b, source);
  }

  /** Height and group of one coin. */
  method StartCoin(heap: Heap, holder: Ptr, i: nat, source: Spend, ghost was: Blocks, ghost s: Shape)
    requires heap.Valid() && Building(was, heap.blocks, s, source)
    requires Coins in s.loc && holder == s.loc[Coins]
    requires i < s.n <= |source.coins| && Progress(s, 2 + 4 * i)
    modifies heap`blocks, heap`next
    ensures heap.Valid() && Building(was, heap.blocks, s, source)
    ensures holder in heap.blocks && Ready(heap.blocks[holder], CoinStream(i), s, source)
  {
    var coins := heap.blocks[holder].coins;
    Stored(heap.blocks, s, CoinStream(i));
    CoinStarts(heap.blocks[holder], i, s, source);
    var coin := coins[i].(height := source.coins[i].height, groupId := source.coins[i].groupId);
    SetScalars(heap, holder, CoinArray(coins[i := coin]), source, was, s, Coins);
  }

  /** Height, group and first stream of one coin. */
  method AddCoinStream(heap: Heap, holder: Ptr, i: nat, source: Spend, ghost was: Blocks, ghost s: Shape)
    returns (ok: bool, ghost s': Shape)
    requires heap.Valid() && Building(was, heap.blocks, s, source)
    requires Coins in s.loc && holder == s.loc[Coins]
    requires i < s.n <= |source.coins| && Progress(s, 2 + 4 * i)
    modifies heap`blocks, heap`next, heap`starved
    ensures heap.Valid() && Building(was, heap.blocks, s', source) && SameTree(s, s')
    ensures (!ok || old(heap.starved)) ==> heap.starved
    ensures ok ==> Progress(s', 4 + 4 * i)
  {
    StartCoin(heap, holder, i, source, was, s);
    ok, s' := AddStream(heap, holder, CoinStream(i), CoinBytes(i), source.coins[i].coin, source, was, s);
  }

  /** The second stream of one coin. */
  method AddContextStream(heap: Heap, holder: Ptr, i: nat, source: Spend, ghost was: Blocks, ghost s: Shape)
    returns (ok: bool, ghost s': Shape)
    requires heap.Valid() && Building(was, heap.blocks, s, source)
    requires Coins in s.loc && holder == s.loc[Coins]
    requires i < s.n <= |source.coins| && Progress(s, 4 + 4 * i)
    modifies heap`blocks, heap`next, heap`starved
    ensures heap.Valid() && Building(was, heap.blocks, s', source) && SameTree(s, s')
    ensures (!ok || old(heap.starved)) ==> heap.starved
    ensures ok ==> Progress(s', 2 + 4 * (i + 1))
  {
    ContextReady(was, heap.blocks, i, s, source);
    ok, s' := AddStream(heap, holder, ContextStream(i), ContextBytes(i), source.coins[i].context, source, was, s);
  }

  /** One turn of the coin loop. */
  method AddCoin(heap: Heap, holder: Ptr, i: nat, source: Spend, ghost was: Blocks, ghost s: Shape)
    returns (ok: bool, ghost s': Shape)
    requires heap.Valid() && Building(was, heap.blocks, s, source)
    requires Coins in s.loc && holder == s.loc[Coins]
    requires i < s.n <= |source.coins| && Progress(s, 2 + 4 * i)
    modifies heap`blocks, heap`next, heap`starved
    ensures heap.Valid() && Building(was, heap.blocks, s', source) && SameTree(s, s')
    ensures (!ok || old(heap.starved)) ==> heap.starved
    ensures ok ==> Progress(s', 2 + 4 * (i + 1))
  {
    ok, s' := AddCoinStream(heap, holder, i, source, was, s);
    if ok {
      ghost var s1 := s';
      ok, s' := AddContextStream(heap, holder, i, source, was, s1);
    }
  }

  lemma SpendStarts(s: Shape, source: Spend, length: int)
    requires s.n == Loops(length) && length == ToInt32(|source.coins|)
    ensures var b := Block.Spend(ZeroSpend().(isError := false, fee := source.fee, usedCoinsLength := length));
      && KindOk(Result, b, s.n, s.m) && Right(Result, b, source) && Ready(b, Coins, s, source)
      && forall other :: Field(b, other) == Field(Block.Spend(ZeroSpend()), other)
    ensures var b := CoinArray(ZeroCoins(Room(s.n)));
      KindOk(Coins, b, s.n, s.m) && Right(Coins, b, source) && Bare(b)
  {
  }

  /** The flag, the fee and the length of `usedCoins`. */
  method StartCoins(heap: Heap, root: Ptr, length: int, source: Spend, ghost was: Blocks, ghost s: Shape)
    requires heap.Valid() && Building(was, heap.blocks, s, source) && root == s.root
    requires heap.blocks[root].result == ZeroSpend() && length == ToInt32(|source.coins|)
    modifies heap`blocks, heap`next
    ensures heap.Valid() && Building(was, heap.blocks, s, source)
    ensures root in heap.blocks && Ready(heap.blocks[root], Coins, s, source)
  {
    var result := ZeroSpend().(isError := false, fee := source.fee, usedCoinsLength := length);
    SpendStarts(s, source, length);
    SetScalars(heap, root, Block.Spend(result), source, was, s, Result);
  }

  /** The array of `usedCoins`. A negative length asks `calloc` for too much. */
  method AddCoinArray(heap: Heap, root: Ptr, source: Spend, ghost was: Blocks, ghost s: Shape)
    returns (holder: Ptr, ghost s': Shape)
    requires heap.Valid() && Building(was, heap.blocks, s, source) && Progress(s, 1) && root == s.root
    requires heap.blocks[root].result == ZeroSpend()
    modifies heap`blocks, heap`next, heap`starved
    ensures heap.Valid() && Building(was, heap.blocks, s', source) && s'.root == root
    ensures (holder == NULL || old(heap.starved)) ==> heap.starved
    ensures holder != NULL ==>
      && Progress(s', 2) && s'.n == ToInt32(|source.coins|) && Coins in s'.loc && holder == s'.loc[Coins]
  {
    var length := ToInt32(|source.coins|);
    StartCoins(heap, root, length, source, was, s);
    SpendStarts(s, source, length);
    if length < 0 {
      heap.Refuse();
      return NULL, s;
    }
    holder, s' := Put(heap, root, Coins, CoinArray(ZeroCoins(Room(length))), source, was, s);
  }

  /** `usedCoins`: the array, then coin by coin. */
  method AddCoins(heap: Heap, root: Ptr, source: Spend, ghost was: Blocks, ghost s: Shape)
    returns (ok: bool, ghost s': Shape)
    requires heap.Valid() && Building(was, heap.blocks, s, source) && Progress(s, 1) && root == s.root
    requires heap.blocks[root].result == ZeroSpend()
    modifies heap`blocks, heap`next, heap`starved
    ensures heap.Valid() && Building(was, heap.blocks, s', source) && s'.root == root
    ensures (!ok || old(heap.starved)) ==> heap.starved
    ensures ok ==> Progress(s', 2 + 4 * s'.n) && ToInt32(|source.coins|) >= 0
  {
    var holder;
    holder, s' := AddCoinArray(heap, root, source, was, s);
    if holder == NULL {
      return false, s';
    }
    ghost var s1 := s';
    ok, s' := AddEachCoin(heap, root, holder, ToInt32(|source.coins|), source, was, s1);
  }

  /** The loop over the coins. */
  method AddEachCoin(heap: Heap, root: Ptr, holder: Ptr, length: nat, source: Spend, ghost was: Blocks, ghost s: Shape)
    returns (ok: bool, ghost s': Shape)
    requires heap.Valid() && Building(was, heap.blocks, s, source) && Progress(s, 2) && root == s.root
    requires length == s.n == ToInt32(|source.coins|) && Coins in s.loc && holder == s.loc[Coins]
    modifies heap`blocks, heap`next, heap`starved
    ensures heap.Valid() && Building(was, heap.blocks, s', source) && s'.root == root
    ensures (!ok || old(heap.starved)) ==> heap.starved
    ensures ok ==> Progress(s', 2 + 4 * s'.n)
  {
    s' := s;
    for i := 0 to length
      invariant old(heap.starved) ==> heap.starved
      invariant length == s'.n && s'.root == root
      invariant heap.Valid() && Building(was, heap.blocks, s', source) && Progress(s', 2 + 4 * i)
      invariant Coins in s'.loc && holder == s'.loc[Coins]
    {
      ghost var s1 := s';
      ok, s' := AddCoin(heap, holder, i, source, was, s1);
      if !ok {
        return;
      }
    }
    ok := true;
  }

  lemma ScriptsFit(b: Block, s: Shape, source: Spend, length: int)
    requires KindOk(Result, b, s.n, s.m) && Right(Result, b, source) && length == ToInt32(|source.scripts|)
    requires s.m == Loops(length) && Field(b, Scripts) == NULL
    ensures var b' := Block.Spend(b.result.(outputScriptsLength := length));
      && KindOk(Result, b', s.n, s.m) && Right(Result, b', source) && Ready(b', Scripts, s, source)
      && forall other :: Field(b', other) == Field(b, other)
    ensures var list := ScriptArray(ZeroScripts(Room(s.m)));
      KindOk(Scripts, list, s.n, s.m) && Right(Scripts, list, source) && Bare(list)
  {
  }

  lemma ScriptStarts(b: Block, i: nat, s: Shape, source: Spend)
    requires KindOk(Scripts, b, s.n, s.m) && Right(Scripts, b, source) && i < s.m <= |source.scripts|
    requires Field(b, ScriptBytes(i)) == NULL
    ensures var b' := ScriptArray(b.scripts[i := b.scripts[i].(length := ToInt32(|source.scripts[i]|))]);
      && KindOk(Scripts, b', s.n, s.m) && Right(Scripts, b', source) && Ready(b', ScriptBytes(i), s, source)
      && forall other :: Field(b', other) == Field(b, other)
    ensures KindOk(ScriptBytes(i), Bytes(source.scripts[i]), s.n, s.m)
    ensures Right(ScriptBytes(i), Bytes(source.scripts[i]), source) && Bare(Bytes(source.scripts[i]))
  {
  }

  /** One turn of the script loop. */
  method AddScript(heap: Heap, holder: Ptr, i: nat, source: Spend, ghost was: Blocks, ghost s: Shape)
    returns (ok: bool, ghost s': Shape)
    requires heap.Valid() && Building(was, heap.blocks, s, source)
    requires Scripts in s.loc && holder == s.loc[Scripts] && holder in heap.blocks
    requires i < s.m <= |source.scripts| && Progress(s, 3 + 4 * s.n + i)
    modifies heap`blocks, heap`next, heap`starved
    ensures heap.Valid() && Building(was, heap.blocks, s', source) && SameTree(s, s')
    ensures (!ok || old(heap.starved)) ==> heap.starved
    ensures ok ==> Progress(s', 3 + 4 * s.n + i + 1)
  {
    Stored(heap.blocks, s, ScriptBytes(i));
    ScriptStarts(heap.blocks[holder], i, s, source);
    var scripts := heap.blocks[holder].scripts;
    var script := scripts[i].(length := ToInt32(|source.scripts[i]|));
    SetScalars(heap, holder, ScriptArray(scripts[i := script]), source, was, s, Scripts);
    var p;
    p, s' := Put(heap, holder, ScriptBytes(i), Bytes(source.scripts[i]), source, was, s);
    ok := p != NULL;
  }

  /** The array of `outputScripts`. */
  method AddScriptArray(heap: Heap, root: Ptr, source: Spend, ghost was: Blocks, ghost s: Shape)
    returns (list: Ptr, ghost s': Shape)
    requires heap.Valid() && Building(was, heap.blocks, s, source) && Progress(s, 2 + 4 * s.n)
    requires root == s.root
    modifies heap`blocks, heap`next, heap`starved
    ensures heap.Valid() && Building(was, heap.blocks, s', source) && s'.root == root
    ensures (list == NULL || old(heap.starved)) ==> heap.starved
    ensures list != NULL ==>
      && Progress(s', 3 + 4 * s'.n) && s'.m == ToInt32(|source.scripts|)
      && Scripts in s'.loc && list == s'.loc[Scripts]
  {
    var length := ToInt32(|source.scripts|);
    Stored(heap.blocks, s, Scripts);
    ScriptsFit(heap.blocks[root], s, source, length);
    var result := heap.blocks[root].result.(outputScriptsLength := length);
    SetScalars(heap, root, Block.Spend(result), source, was, s, Result);
    if length < 0 {
      heap.Refuse();
      return NULL, s;
    }
    list, s' := Put(heap, root, Scripts, ScriptArray(ZeroScripts(Room(length))), source, was, s);
  }

  /** `outputScripts`: the array, then script by script. */
  method AddScripts(heap: Heap, root: Ptr, source: Spend, ghost was: Blocks, ghost s: Shape)
    returns (ok: bool, ghost s': Shape)
    requires heap.Valid() && Building(was, heap.blocks, s, source) && Progress(s, 2 + 4 * s.n)
    requires root == s.root
    modifies heap`blocks, heap`next, heap`starved
    ensures heap.Valid() && Building(was, heap.blocks, s', source) && s'.root == root
    ensures (!ok || old(heap.starved)) ==> heap.starved
    ensures ok ==> Progress(s', 3 + 4 * s'.n + s'.m) && ToInt32(|source.scripts|) >= 0
  {
    var list;
    list, s' := AddScriptArray(heap, root, source, was, s);
    if list == NULL {
      return false, s';
    }
    ghost var s1 := s';
    ok, s' := AddEachScript(heap, root, list, ToInt32(|source.scripts|), source, was, s1);
  }

  /** The loop over the scripts. */
  method AddEachScript(heap: Heap, root: Ptr, list: Ptr, length: nat, source: Spend, ghost was: Blocks, ghost s: Shape)
    returns (ok: bool, ghost s': Shape)
    requires heap.Valid() && Building(was, heap.blocks, s, source) && Progress(s, 3 + 4 * s.n) && root == s.root
    requires length == s.m == ToInt32(|source.scripts|) && Scripts in s.loc && list == s.loc[Scripts]
    modifies heap`blocks, heap`next, heap`starved
    ensures heap.Valid() && Building(was, heap.blocks, s', source) && s'.root == root
    ensures (!ok || old(heap.starved)) ==> heap.starved
    ensures ok ==> Progress(s', 3 + 4 * s'.n + s'.m)
  {
    s' := s;
    for i := 0 to length
      invariant old(heap.starved) ==> heap.starved
      invariant length == s'.m && s'.root == root
      invariant heap.Valid() && Building(was, heap.blocks, s', source) && Progress(s', 3 + 4 * s'.n + i)
      invariant Scripts in s'.loc && list == s'.loc[Scripts]
    {
      ghost var s1 := s';
      ok, s' := AddScript(heap, list, i, source, was, s1);
      if !ok {
        return;
      }
    }
    ok := true;
  }

  lemma DataFits(b: Block, s: Shape, source: Spend)
    requires KindOk(Result, b, s.n, s.m) && Right(Result, b, source) && Field(b, Data) == NULL
    ensures var b' := Block.Spend(b.result.(dataLength := ToInt32(|source.data|)));
      && KindOk(Result, b', s.n, s.m) && Right(Result, b', source) && Ready(b', Data, s, source)
      && forall other :: Field(b', other) == Field(b, other)
    ensures KindOk(Data, Bytes(source.data), s.n, s.m) && Right(Data, Bytes(source.data), source)
    ensures Bare(Bytes(source.data))
  {
  }

  method AddData(heap: Heap, root: Ptr, source: Spend, ghost was: Blocks, ghost s: Shape)
    returns (ok: bool, ghost s': Shape)
    requires heap.Valid() && Building(was, heap.blocks, s, source) && Progress(s, 3 + 4 * s.n + s.m)
    requires root == s.root
    modifies heap`blocks, heap`next, heap`starved
    ensures heap.Valid() && Building(was, heap.blocks, s', source) && s'.root == root
    ensures (!ok || old(heap.starved)) ==> heap.starved
    ensures ok ==> Progress(s', 4 + 4 * s'.n + s'.m)
  {
    Stored(heap.blocks, s, Data);
    DataFits(heap.blocks[root], s, source);
    var result := heap.blocks[root].result.(dataLength := ToInt32(|source.data|));
    SetScalars(heap, root, Block.Spend(result), source, was, s, Result);
    var p;
    p, s' := Put(heap, root, Data, Bytes(source.data), source, was, s);
    ok := p != NULL;
  }

  // Releasing.

  /** When `freeSpendResult` releases each block. */
  function FreeTurn(place: Place, n: nat, m: nat): nat {
    match place
    case CoinBytes(i) => 4 * i
    case ContextBytes(i) => 4 * i + 1
    case CoinStream(i) => 4 * i + 2
    case ContextStream(i) => 4 * i + 3
    case ScriptBytes(i) => 4 * n + i
    case Coins => 4 * n + m
    case Scripts => 4 * n + m + 1
    case Data => 4 * n + m + 2
    case Result => 4 * n + m + 3
  }

  /** The blocks of the first `t` turns are gone, and no other. */
  ghost predicate Released(was: Blocks, now: Blocks, s: Shape, t: nat) {
    && now.Keys <= was.Keys
    && forall p :: p in was ==>
         if p in s.at && FreeTurn(s.at[p], s.n, s.m) < t then p !in now else p in now && now[p] == was[p]
  }

  lemma FreeTurnsDiffer(x: Place, y: Place, n: nat, m: nat)
    requires InRange(x, n, m) && InRange(y, n, m) && FreeTurn(x, n, m) == FreeTurn(y, n, m)
    ensures x == y
  {
  }

  lemma ReleasedNext(was: Blocks, now: Blocks, s: Shape, place: Place, p: Ptr)
    requires Tree(was, s) && NULL !in was && InRange(place, s.n, s.m)
    requires Released(was, now, s, FreeTurn(place, s.n, s.m))
    requires p == if place in s.loc then s.loc[place] else NULL
    ensures p == NULL || p in now
    ensures Released(was, now - {p}, s, FreeTurn(place, s.n, s.m) + 1)
  {
    var t := FreeTurn(place, s.n, s.m);
    forall q | q in s.at
      ensures FreeTurn(s.at[q], s.n, s.m) == t <==> q == p
    {
      if FreeTurn(s.at[q], s.n, s.m) == t {
        FreeTurnsDiffer(s.at[q], place, s.n, s.m);
      }
    }
  }

  method FreePlace(heap: Heap, p: Ptr, ghost place: Place, ghost was: Blocks, ghost s: Shape)
    requires heap.Valid() && Tree(was, s) && NULL !in was && InRange(place, s.n, s.m)
    requires Released(was, heap.blocks, s, FreeTurn(place, s.n, s.m))
    requires p == if place in s.loc then s.loc[place] else NULL
    modifies heap`blocks, heap`next
    ensures heap.Valid() && Released(was, heap.blocks, s, FreeTurn(place, s.n, s.m) + 1)
  {
    ReleasedNext(was, heap.blocks, s, place, p);
    heap.Free(p);
  }

  /** Without an array there is nothing to release in its turns. */
  lemma ReleasedSkip(was: Blocks, now: Blocks, s: Shape)
    requires Tree(was, s)
    ensures Coins !in s.loc && Released(was, now, s, 0) ==> Released(was, now, s, 4 * s.n)
    ensures Scripts !in s.loc && Released(was, now, s, 4 * s.n) ==> Released(was, now, s, 4 * s.n + s.m)
  {
    forall p | p in s.at
      ensures Coins !in s.loc ==> FreeTurn(s.at[p], s.n, s.m) >= 4 * s.n
      ensures Scripts !in s.loc && FreeTurn(s.at[p], s.n, s.m) >= 4 * s.n ==>
        FreeTurn(s.at[p], s.n, s.m) >= 4 * s.n + s.m
    {
      assert Parent(s.at[p]) in s.loc && Parent(Parent(s.at[p])) in s.loc;
    }
  }

  lemma AllReleased(was: Blocks, now: Blocks, s: Shape)
    requires Tree(was, s) && Released(was, now, s, 4 * s.n + s.m + 4)
    ensures now == was - s.at.Keys
  {
  }

  /** Where an entry of the coin array leads. */
  lemma CoinLeads(was: Blocks, s: Shape, i: nat)
    requires Tree(was, s) && Coins in s.loc && i < s.n
    ensures s.loc[Coins] in was && was[s.loc[Coins]].CoinArray? && i < |was[s.loc[Coins]].coins|
    ensures was[s.loc[Coins]].coins[i].serializedCoin == if CoinStream(i) in s.loc then s.loc[CoinStream(i)] else NULL
    ensures was[s.loc[Coins]].coins[i].serializedCoinContext ==
      if ContextStream(i) in s.loc then s.loc[ContextStream(i)] else NULL
  {
    Stored(was, s, CoinStream(i));
    Stored(was, s, ContextStream(i));
  }

  /** `if (stream) free(stream->data)`. */
  method FreeStreamData(heap: Heap, stream: Ptr, ghost place: Place, ghost inner: Place, ghost was: Blocks,
                        ghost s: Shape)
    requires heap.Valid() && Tree(was, s) && NULL !in was && InRange(inner, s.n, s.m)
    requires Released(was, heap.blocks, s, FreeTurn(inner, s.n, s.m))
    requires
      (place.CoinStream? && inner == CoinBytes(place.i)) || (place.ContextStream? && inner == ContextBytes(place.i))
    requires stream == if place in s.loc then s.loc[place] else NULL
    modifies heap`blocks, heap`next
    ensures heap.Valid() && Released(was, heap.blocks, s, FreeTurn(inner, s.n, s.m) + 1)
  {
    if stream != NULL {
      Stored(was, s, inner);
      FreePlace(heap, heap.blocks[stream].stream.data, inner, was, s);
    } else {
      assert inner !in s.loc by {
        assert Parent(inner) == place;
      }
      FreePlace(heap, NULL, inner, was, s);
    }
  }

  /** The releases of one coin. */
  method FreeCoin(heap: Heap, coin: UsedCoin, i: nat, ghost was: Blocks, ghost s: Shape)
    requires heap.Valid() && Tree(was, s) && NULL !in was && i < s.n
    requires Released(was, heap.blocks, s, 4 * i)
    requires Coins in s.loc && s.loc[Coins] in was && was[s.loc[Coins]].CoinArray?
    requires i < |was[s.loc[Coins]].coins| && coin == was[s.loc[Coins]].coins[i]
    modifies heap`blocks, heap`next
    ensures heap.Valid() && Released(was, heap.blocks, s, 4 * i + 4)
  {
    CoinLeads(was, s, i);
    FreeStreamData(heap, coin.serializedCoin, CoinStream(i), CoinBytes(i), was, s);
    FreeStreamData(heap, coin.serializedCoinContext, ContextStream(i), ContextBytes(i), was, s);
    FreePlace(heap, coin.serializedCoin, CoinStream(i), was, s);
    FreePlace(heap, coin.serializedCoinContext, ContextStream(i), was, s);
  }

  /** The two loops of `freeSpendResult`. */
  method FreeCoins(heap: Heap, root: Ptr, ghost was: Blocks, ghost s: Shape)
    requires heap.Valid() && Tree(was, s) && root == s.root && heap.blocks == was && NULL !in was
    modifies heap`blocks, heap`next
    ensures heap.Valid() && Released(was, heap.blocks, s, 4 * s.n)
  {
    var result := heap.blocks[root].result;
    Stored(was, s, Coins);
    if result.usedCoins == NULL {
      ReleasedSkip(was, was, s);
      return;
    }
    var coins := heap.blocks[result.usedCoins].coins;
    for i := 0 to Loops(result.usedCoinsLength)
      invariant heap.Valid() && Released(was, heap.blocks, s, 4 * i)
    {
      FreeCoin(heap, coins[i], i, was, s);
    }
  }

  method FreeScripts(heap: Heap, root: Ptr, ghost was: Blocks, ghost s: Shape)
    requires heap.Valid() && Tree(was, s) && root == s.root && NULL !in was
    requires Released(was, heap.blocks, s, 4 * s.n)
    modifies heap`blocks, heap`next
    ensures heap.Valid() && Released(was, heap.blocks, s, 4 * s.n + s.m)
  {
    var result := heap.blocks[root].result;
    Stored(was, s, Scripts);
    if result.outputScripts == NULL {
      ReleasedSkip(was, heap.blocks, s);
      return;
    }
    var scripts := heap.blocks[result.outputScripts].scripts;
    for i := 0 to Loops(result.outputScriptsLength)
      invariant heap.Valid() && Released(was, heap.blocks, s, 4 * s.n + i)
    {
      Stored(was, s, ScriptBytes(i));
      FreePlace(heap, scripts[i].bytes, ScriptBytes(i), was, s);
    }
  }

  /** `freeSpendResult`: releases exactly the blocks of the tree, each once, and reads no released block. */
  method FreeSpendResult(heap: Heap, root: Ptr, ghost s: Shape)
    requires heap.Valid() && (root == NULL || (Tree(heap.blocks, s) && root == s.root))
    modifies heap`blocks, heap`next
    ensures heap.Valid()
    ensures heap.blocks == if root == NULL then old(heap.blocks) else old(heap.blocks) - s.at.Keys
  {
    if root == NULL {
      return;
    }
    ghost var was := heap.blocks;
    FreeCoins(heap, root, was, s);
    FreeScripts(heap, root, was, s);
    FreeRest(heap, root, was, s);
    AllReleased(was, heap.blocks, s);
  }

  method FreeRest(heap: Heap, root: Ptr, ghost was: Blocks, ghost s: Shape)
    requires heap.Valid() && Tree(was, s) && root == s.root && NULL !in was
    requires Released(was, heap.blocks, s, 4 * s.n + s.m)
    modifies heap`blocks, heap`next
    ensures heap.Valid() && Released(was, heap.blocks, s, 4 * s.n + s.m + 4)
  {
    var result := heap.blocks[root].result;
    Stored(was, s, Coins);
    Stored(was, s, Scripts);
    Stored(was, s, Data);
    FreePlace(heap, result.usedCoins, Coins, was, s);
    FreePlace(heap, result.outputScripts, Scripts, was, s);
    FreePlace(heap, result.data, Data, was, s);
    FreePlace(heap, root, Result, was, s);
  }

  // The whole call.

  /** Allocates and fills the tree, or gives back everything and returns null. */
  method BuildSpend(heap: Heap, source: Spend) returns (root: Ptr, ghost s: Shape)
    requires heap.Valid()
    modifies heap`blocks, heap`next, heap`starved
    ensures heap.Valid()
    ensures (root == NULL || old(heap.starved)) ==> heap.starved
    ensures root == NULL ==> heap.blocks == old(heap.blocks)
    ensures root != NULL ==>
      && root == s.root && Extends(old(heap.blocks), heap.blocks, s.at.Keys)
      && Tree(heap.blocks, s) && Represents(heap.blocks, root, source)
  {
    ghost var was := heap.blocks;
    root := heap.Allocate(Block.Spend(ZeroSpend()));
    s := Shape(root, map[root := Result], map[Result := root],
               Loops(ToInt32(|source.coins|)), Loops(ToInt32(|source.scripts|)));
    if root == NULL {
      return;
    }
    FirstBlock(was, root, s, source);
    var ok;
    ok, s := Fill(heap, root, source, was, s);
    if ok {
      AllRepresented(was, heap.blocks, s, source);
    } else {
      ReleaseRestores(was, heap.blocks, s.at.Keys);
      FreeSpendResult(heap, root, s);
      root := NULL;
    }
  }

  lemma FirstBlock(was: Blocks, root: Ptr, s: Shape, source: Spend)
    requires root != NULL && root !in was && s.root == root
    requires s.at == map[root := Result] && s.loc == map[Result := root]
    requires s.n == Loops(ToInt32(|source.coins|)) && s.m == Loops(ToInt32(|source.scripts|))
    ensures Building(was, was[root := Block.Spend(ZeroSpend())], s, source) && Progress(s, 1)
  {
  }

  method Fill(heap: Heap, root: Ptr, source: Spend, ghost was: Blocks, ghost start: Shape)
    returns (ok: bool, ghost s: Shape)
    requires heap.Valid() && Building(was, heap.blocks, start, source) && Progress(start, 1) && root == start.root
    requires heap.blocks[root].result == ZeroSpend()
    modifies heap`blocks, heap`next, heap`starved
    ensures heap.Valid() && Building(was, heap.blocks, s, source) && s.root == root
    ensures (!ok || old(heap.starved)) ==> heap.starved
    ensures ok ==> Progress(s, 4 + 4 * s.n + s.m) && 0 <= ToInt32(|source.coins|) && 0 <= ToInt32(|source.scripts|)
  {
    ok, s := AddCoins(heap, root, source, was, start);
    if ok {
      ghost var s1 := s;
      ok, s := AddScripts(heap, root, source, was, s1);
      if ok {
        ghost var s2 := s;
        ok, s := AddData(heap, root, source, was, s2);
      }
    }
  }

  /** The result that carries the text of an exception. */
  ghost predicate IsErrorResult(blocks: Blocks, root: Ptr, message: string) {
    && root in blocks && blocks[root].Spend?
    && var r := blocks[root].result;
      && r.isError && r.dataLength == ToInt32(|message|)
      && r.usedCoins == r.outputScripts == NULL && r.usedCoinsLength == r.outputScriptsLength == r.fee == 0
      && r.data in blocks && blocks[r.data].Bytes? && HoldsText(blocks[r.data].data, message)
  }

  /** The handler of `std::exception`: an error result, or null when there is no memory for it. */
  method BuildError(heap: Heap, message: string) returns (root: Ptr, ghost s: Shape)
    requires heap.Valid()
    modifies heap
    ensures heap.Valid()
    ensures (root == NULL || old(heap.starved)) ==> heap.starved
    ensures root == NULL ==> heap.blocks == old(heap.blocks) && heap.lastError == "Out of memory"
    ensures root != NULL ==>
      && heap.lastError == old(heap.lastError)
      && root == s.root && Extends(old(heap.blocks), heap.blocks, s.at.Keys)
      && Tree(heap.blocks, s) && IsErrorResult(heap.blocks, root, message)
  {
    ghost var was := heap.blocks;
    s := Shape(NULL, map[], map[], 0, 0);
    root := heap.Allocate(Block.Spend(ZeroSpend()));
    if root == NULL {
      heap.SetLastError("Out of memory");
      return;
    }
    var result := ZeroSpend().(isError := true, dataLength := ToInt32(|message|));
    heap.Store(root, Block.Spend(result));
    var data := heap.Allocate(Bytes(Octets(message)));
    if data == NULL {
      heap.Free(root);
      heap.SetLastError("Out of memory");
      return NULL, s;
    }
    heap.Store(root, Block.Spend(result.(data := data)));
    s := Shape(root, map[root := Result, data := Data], map[Result := root, Data := data], 0, 0);
    ErrorTree(heap.blocks, s);
  }

  lemma ErrorTree(blocks: Blocks, s: Shape)
    requires Result in s.loc && Data in s.loc && s.loc == map[Result := s.root, Data := s.loc[Data]]
    requires s.at == map[s.root := Result, s.loc[Data] := Data] && s.root != s.loc[Data]
    requires s.root != NULL && s.loc[Data] != NULL && s.root in blocks && s.loc[Data] in blocks
    requires blocks[s.root].Spend? && blocks[s.loc[Data]].Bytes?
    requires blocks[s.root].result.usedCoins == NULL && blocks[s.root].result.outputScripts == NULL
    requires blocks[s.root].result.data == s.loc[Data]
    ensures Tree(blocks, s)
  {
  }

  /** Counts in a returned transaction: each is the true one exactly below 2^31, and none is negative. */
  lemma CountsExactly(blocks: Blocks, root: Ptr, source: Spend)
    requires Represents(blocks, root, source)
    ensures var r := blocks[root].result;
      && (r.usedCoinsLength == |source.coins| <==> |source.coins| < 0x8000_0000)
      && (r.outputScriptsLength == |source.scripts| <==> |source.scripts| < 0x8000_0000)
      && (r.dataLength == |source.data| <==> |source.data| < 0x8000_0000)
      && !TooMany(|source.coins|) && !TooMany(|source.scripts|)
  {
    Narrowing(|source.coins|);
    Narrowing(|source.scripts|);
    Narrowing(|source.data|);
  }

  /** No result represents 2^31 coins, and a result for 2^32 + 1 coins shows the first one only. */
  lemma ManyCoins(blocks: Blocks, root: Ptr, source: Spend)
    ensures |source.coins| == 0x8000_0000 ==> !Represents(blocks, root, source)
    ensures |source.coins| == 0x1_0000_0001 && Represents(blocks, root, source) ==>
      blocks[root].result.usedCoinsLength == 1
  {
    Narrowing(|source.coins|);
  }

  /**
   `cCreateSparkSpendTransaction` from the library call on. Null comes with the heap unchanged and
   the reason recorded; a result is a tree of new blocks and holds the transaction or the text of
   the exception that stopped it.
   */
  method CreateSpend(heap: Heap, library: Library<Spend>, outOfMemory: string) returns (root: Ptr, ghost s: Shape)
    requires heap.Valid()
    modifies heap
    ensures heap.Valid()
    ensures library.Returns? && (TooMany(|library.value.coins|) || TooMany(|library.value.scripts|)) ==>
      heap.starved && (root == NULL || IsErrorResult(heap.blocks, root, outOfMemory))
    ensures root == NULL ==>
      && heap.blocks == old(heap.blocks)
      && heap.lastError == if library.ThrowsOther? then "Unknown native exception" else "Out of memory"
    ensures root == NULL && !library.ThrowsOther? ==> heap.starved
    ensures root != NULL ==>
      && !library.ThrowsOther? && heap.lastError == old(heap.lastError)
      && root == s.root && Extends(old(heap.blocks), heap.blocks, s.at.Keys) && Tree(heap.blocks, s)
      && ((library.Returns? && Represents(heap.blocks, root, library.value))
          || ((library.Returns? ==> heap.starved) && IsErrorResult(heap.blocks, root, Reason(library, outOfMemory))))
  {
    root, s := NULL, Shape(NULL, map[], map[], 0, 0);
    if library.ThrowsOther? {
      heap.SetLastError("Unknown native exception");
      return;
    }
    if library.Returns? {
      Narrowing(|library.value.coins|);
      Narrowing(|library.value.scripts|);
      root, s := BuildSpend(heap, library.value);
    }
    if root == NULL {
      root, s := BuildError(heap, Reason(library, outOfMemory));
    }
  }
}
