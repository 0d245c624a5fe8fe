/** The unspent-output cache stack: write-back caches of coins layered over a database
    (`CCoinsViewCache` over `CCoinsView`). Values first, then the objects that update them. */
module CoinMap {

  datatype TxOut = TxOut(value: int, script: seq<bv8>)

  datatype Coin = Coin(out: TxOut, coinBase: bool, height: nat) {
    predicate IsSpent() {
      out.value == -1
    }

    /** Heap bytes behind the script: none up to 28 bytes, then one rounded allocation. */
    function DynamicMemoryUsage(): nat {
      if |out.script| <= 28 then 0 else (|out.script| + 31) / 16 * 16
    }
  }

  const EMPTY_COIN := Coin(TxOut(-1, []), false, 0)

  datatype OutPoint = OutPoint(hash: nat, n: nat)

  datatype Entry = Entry(coin: Coin, isDirty: bool, isFresh: bool)

  type CoinsMap = map<OutPoint, Entry>

  /** A set of unspent outputs: what a view means, whatever caches it is made of. */
  type Utxo = map<OutPoint, Coin>

  /** What a cache means when it lies over a view that means `below`. */
  ghost function Overlay(below: Utxo, cache: CoinsMap): Utxo {
    map op | op in below.Keys + cache.Keys && (op in cache ==> !cache[op].coin.IsSpent()) ::
      if op in cache then cache[op].coin else below[op]
  }

  /** The coin recorded in a cache entry is the one the view below has. */
  ghost predicate Agrees(below: Utxo, op: OutPoint, coin: Coin) {
    if coin.IsSpent() then op !in below else op in below && below[op] == coin
  }

  /** The meaning of the two flags: a clean entry repeats the view below,
      and a FRESH entry has no unspent coin below it. */
  ghost predicate FlagsOk(below: Utxo, cache: CoinsMap) {
    forall op <- cache ::
      && (!cache[op].isDirty ==> Agrees(below, op, cache[op].coin))
      && (cache[op].isFresh ==> op !in below)
  }

  /** The sum that `cachedCoinsUsage` tracks. */
  ghost function TotalUsage(cache: CoinsMap): nat {
    if cache == map[] then 0
    else
      var op :| op in cache;
      cache[op].coin.DynamicMemoryUsage() + TotalUsage(cache - {op})
  }

  lemma {:induction false} TotalUsageRemove(cache: CoinsMap, op: OutPoint)
    requires op in cache
    ensures TotalUsage(cache) == cache[op].coin.DynamicMemoryUsage() + TotalUsage(cache - {op})
    decreases |cache|
  {
    var pick :| pick in cache &&
      TotalUsage(cache) == cache[pick].coin.DynamicMemoryUsage() + TotalUsage(cache - {pick});
    if pick != op {
      TotalUsageRemove(cache - {pick}, op);
      TotalUsageRemove(cache - {op}, pick);
      assert cache - {pick} - {op} == cache - {op} - {pick};
    }
  }

  lemma TotalUsageUpdate(cache: CoinsMap, op: OutPoint, e: Entry)
    ensures TotalUsage(cache[op := e]) == TotalUsage(cache - {op}) + e.coin.DynamicMemoryUsage()
    ensures op !in cache ==> cache - {op} == cache
  {
    TotalUsageRemove(cache[op := e], op);
    assert cache[op := e] - {op} == cache - {op};
  }

  // --- What one change to a cache does to its meaning --------------------------------------

  lemma FetchKeepsMeaning(below: Utxo, cache: CoinsMap, op: OutPoint)
    requires FlagsOk(below, cache) && op !in cache && op in below && !below[op].IsSpent()
    ensures FlagsOk(below, cache[op := Entry(below[op], false, false)])
    ensures Overlay(below, cache[op := Entry(below[op], false, false)]) == Overlay(below, cache)
    ensures TotalUsage(cache[op := Entry(below[op], false, false)]) ==
            TotalUsage(cache) + below[op].DynamicMemoryUsage()
  {
    TotalUsageUpdate(cache, op, Entry(below[op], false, false));
  }

  lemma UncacheKeepsMeaning(below: Utxo, cache: CoinsMap, op: OutPoint)
    requires FlagsOk(below, cache) && op in cache && !cache[op].isDirty
    ensures FlagsOk(below, cache - {op}) && Overlay(below, cache - {op}) == Overlay(below, cache)
    ensures TotalUsage(cache - {op}) == TotalUsage(cache) - cache[op].coin.DynamicMemoryUsage()
  {
    TotalUsageRemove(cache, op);
  }

  /** The cache after a spend: a FRESH entry needs no tombstone. */
  function SpentIn(cache: CoinsMap, op: OutPoint): CoinsMap
    requires op in cache
  {
    if cache[op].isFresh then cache - {op} else cache[op := Entry(EMPTY_COIN, true, false)]
  }

  lemma SpendRemoves(below: Utxo, cache: CoinsMap, op: OutPoint)
    requires FlagsOk(below, cache) && op in cache
    ensures FlagsOk(below, SpentIn(cache, op)) && Overlay(below, SpentIn(cache, op)) == Overlay(below, cache) - {op}
  {
    var after := SpentIn(cache, op);
    assert forall o :: o != op ==> (o in after <==> o in cache) && (o in cache ==> after[o] == cache[o]);
    assert op in after ==> after[op] == Entry(EMPTY_COIN, true, false);
  }

  lemma SpendUsage(cache: CoinsMap, op: OutPoint)
    requires op in cache
    ensures TotalUsage(SpentIn(cache, op)) == TotalUsage(cache) - cache[op].coin.DynamicMemoryUsage()
  {
    TotalUsageRemove(cache, op);
    TotalUsageUpdate(cache, op, Entry(EMPTY_COIN, true, false));
  }

  /** Two caches with the same meaning can answer SpendCoin of an absent coin differently: one still
      holds the tombstone of an earlier spend. */
  lemma SpendFlagNotDeterminedByView(op: OutPoint, coin: Coin)
    requires !coin.IsSpent()
    ensures exists below: Utxo, c1: CoinsMap, c2: CoinsMap ::
              && FlagsOk(below, c1) && FlagsOk(Overlay(below, c1), c2)
              && Overlay(below, c1) == Overlay(Overlay(below, c1), c2)
              && op !in Overlay(below, c1) && op in c1 && op !in c2
  {
    var below: Utxo := map[op := coin];
    var c1: CoinsMap := map[op := Entry(EMPTY_COIN, true, false)];
    var c2: CoinsMap := map[];
    assert Overlay(below, c1) == map[] && Overlay(map[], c2) == map[];
  }

  /** The cache after an unspent coin is added. */
  function AddedTo(cache: CoinsMap, op: OutPoint, coin: Coin, possibleOverwrite: bool): CoinsMap {
    var e := if op in cache then cache[op] else Entry(EMPTY_COIN, false, false);
    cache[op := Entry(coin, true, e.isFresh || (!possibleOverwrite && !e.isDirty))]
  }

  /** Adding means inserting, and keeps the flags truthful exactly under the overwrite contract. */
  lemma AddInserts(below: Utxo, cache: CoinsMap, op: OutPoint, coin: Coin, possibleOverwrite: bool)
    requires FlagsOk(below, cache) && !coin.IsSpent()
    requires !possibleOverwrite && op in cache ==> cache[op].coin.IsSpent()
    ensures Overlay(below, AddedTo(cache, op, coin, possibleOverwrite)) == Overlay(below, cache)[op := coin]
    ensures FlagsOk(below, AddedTo(cache, op, coin, possibleOverwrite)) <==>
              possibleOverwrite || op !in Overlay(below, cache)
  {
    var after := AddedTo(cache, op, coin, possibleOverwrite);
    assert op in after;
  }

  lemma AddUsage(cache: CoinsMap, op: OutPoint, coin: Coin, possibleOverwrite: bool)
    ensures TotalUsage(AddedTo(cache, op, coin, possibleOverwrite)) ==
              TotalUsage(cache) + coin.DynamicMemoryUsage()
              - if op in cache then cache[op].coin.DynamicMemoryUsage() else 0
  {
    if op in cache {
      TotalUsageRemove(cache, op);
    }
    TotalUsageUpdate(cache, op, AddedTo(cache, op, coin, possibleOverwrite)[op]);
  }

  // --- One entry of a child's map pushed into its parent ---------------------------------

  /** The parent entry that results from pushing one child entry; None means no entry. */
  datatype Slot = NoEntry | Holds(entry: Entry)

  function SlotOf(cache: CoinsMap, op: OutPoint): Slot {
    if op in cache then Holds(cache[op]) else NoEntry
  }

  function WithSlot(cache: CoinsMap, op: OutPoint, s: Slot): CoinsMap {
    match s
    case NoEntry => cache - {op}
    case Holds(e) => cache[op := e]
  }

  predicate Misapplied(ours: Slot, child: Entry) {
    child.isDirty && child.isFresh && ours.Holds? && !ours.entry.coin.IsSpent()
  }

  ghost predicate AnyMisapplied(cache: CoinsMap, m: CoinsMap) {
    exists op <- m :: Misapplied(SlotOf(cache, op), m[op])
  }

  function Push(ours: Slot, child: Entry): Slot {
    if !child.isDirty then ours
    else match ours
      case NoEntry =>
        if child.isFresh && child.coin.IsSpent() then NoEntry
        else Holds(Entry(child.coin, true, child.isFresh))
      case Holds(e) =>
        if e.isFresh && child.coin.IsSpent() then NoEntry
        else Holds(Entry(child.coin, true, e.isFresh))
  }

  /** The cache that results from pushing every entry of `m` into `cache`, in any order. */
  ghost function Pushed(cache: CoinsMap, m: CoinsMap): CoinsMap {
    map op | op in cache.Keys + m.Keys && PushedSlot(cache, m, op).Holds? :: PushedSlot(cache, m, op).entry
  }

  ghost function PushedSlot(cache: CoinsMap, m: CoinsMap, op: OutPoint): Slot {
    if op in m then Push(SlotOf(cache, op), m[op]) else SlotOf(cache, op)
  }

  /** Pushing a child's entries gives the parent exactly the child's view, and leaves the parent's
      own flags true of the view below it. The FRESH erasures are what make this delicate. */
  lemma PushedIsChildView(below: Utxo, cache: CoinsMap, m: CoinsMap)
    requires FlagsOk(below, cache)
    requires FlagsOk(Overlay(below, cache), m)
    ensures FlagsOk(below, Pushed(cache, m))
    ensures Overlay(below, Pushed(cache, m)) == Overlay(Overlay(below, cache), m)
    ensures !AnyMisapplied(cache, m)
  {
    var p := Pushed(cache, m);
    forall op: OutPoint
      ensures op in Overlay(below, p) <==> op in Overlay(Overlay(below, cache), m)
      ensures op in Overlay(below, p) ==> Overlay(below, p)[op] == Overlay(Overlay(below, cache), m)[op]
    {
      PushAt(below, cache, m, op);
    }
    assert Overlay(below, p).Keys == Overlay(Overlay(below, cache), m).Keys;
    forall op | op in p
      ensures !p[op].isDirty ==> Agrees(below, op, p[op].coin)
      ensures p[op].isFresh ==> op !in below
    {
      PushAt(below, cache, m, op);
    }
    forall op | op in m
      ensures !Misapplied(SlotOf(cache, op), m[op])
    {
      PushAt(below, cache, m, op);
    }
  }

  /** The single-outpoint case of PushedIsChildView. */
  lemma PushAt(below: Utxo, cache: CoinsMap, m: CoinsMap, op: OutPoint)
    requires FlagsOk(below, cache)
    requires FlagsOk(Overlay(below, cache), m)
    ensures op in Overlay(below, Pushed(cache, m)) <==> op in Overlay(Overlay(below, cache), m)
    ensures op in Overlay(below, Pushed(cache, m)) ==>
              Overlay(below, Pushed(cache, m))[op] == Overlay(Overlay(below, cache), m)[op]
    ensures op in Pushed(cache, m) ==>
              && (!Pushed(cache, m)[op].isDirty ==> Agrees(below, op, Pushed(cache, m)[op].coin))
              && (Pushed(cache, m)[op].isFresh ==> op !in below)
    ensures op in m ==> !Misapplied(SlotOf(cache, op), m[op])
  {
    var s := PushedSlot(cache, m, op);
    assert op in Pushed(cache, m) <==> s.Holds?;
    if op in m && m[op].isFresh {
      assert op !in Overlay(below, cache);
    }
  }
}

module Coins {
  import opened CoinMap

  type BlockHash = nat

  const NULL_HASH: BlockHash := 0

  /** How a call that may throw std::logic_error ends. */
  datatype Outcome = Done | LogicError

  /** The backing store (`CCoinsViewDB`). */
  class CoinsDb {
    var coins: Utxo
    var best: BlockHash

    constructor (coins: Utxo, best: BlockHash)
      ensures this.coins == coins && this.best == best
    {
      this.coins := coins;
      this.best := best;
    }

    /** Every dirty entry is written or, when spent, erased. */
    method BatchWrite(mapCoins: CoinsMap, hashBlock: BlockHash)
      requires hashBlock != NULL_HASH
      modifies this
      ensures FlagsOk(old(coins), mapCoins) ==> coins == Overlay(old(coins), mapCoins)
      ensures best == hashBlock
    {
      var rest := mapCoins.Keys;
      while rest != {}
        invariant rest <= mapCoins.Keys
        invariant forall op <- mapCoins :: op !in rest && mapCoins[op].isDirty ==>
                    if mapCoins[op].coin.IsSpent() then op !in coins
                    else op in coins && coins[op] == mapCoins[op].coin
        invariant forall op :: (op in rest || op !in mapCoins || !mapCoins[op].isDirty) ==>
                    (op in coins <==> op in old(coins)) && (op in coins ==> coins[op] == old(coins)[op])
        decreases rest
      {
        var op :| op in rest;
        if mapCoins[op].isDirty {
          coins := if mapCoins[op].coin.IsSpent() then coins - {op} else coins[op := mapCoins[op].coin];
        }
        rest := rest - {op};
      }
      best := hashBlock;
      if FlagsOk(old(coins), mapCoins) {
        assert coins.Keys == Overlay(old(coins), mapCoins).Keys;
      }
    }
  }

  /** What a `CCoinsView*` may point at. */
  datatype View = Database(db: CoinsDb) | Cached(cache: CoinsCache)

  ghost function Depth(v: View): nat {
    match v case Database(_) => 0 case Cached(c) => c.depth
  }

  ghost function Footprint(v: View): set<object> {
    match v case Database(db) => {db} case Cached(c) => c.footprint
  }

  /** The stack is a chain of distinct objects ending in a database. */
  ghost predicate Stacked(v: View)
    decreases Depth(v)
  {
    v.Cached? ==>
      && Depth(v.cache.base) < v.cache.depth
      && v.cache !in Footprint(v.cache.base)
      && v.cache.footprint == {v.cache} + Footprint(v.cache.base)
      && Stacked(v.cache.base)
  }

  /** The unspent outputs a view stands for. */
  ghost function Contents(v: View): Utxo
    requires Stacked(v)
    reads Footprint(v)
    decreases Depth(v)
  {
    match v
    case Database(db) => db.coins
    case Cached(c) => Overlay(Contents(c.base), c.cacheCoins)
  }

  /** The unspent outputs of a view and of every view below it, top first. */
  ghost function Levels(v: View): (levels: seq<Utxo>)
    requires Stacked(v)
    reads Footprint(v)
    ensures |levels| > 0 && levels[0] == Contents(v)
    decreases Depth(v)
  {
    [Contents(v)] + if v.Cached? then Levels(v.cache.base) else []
  }

  /** The block a view stands at: a null hash defers to the view below. */
  ghost function Best(v: View): BlockHash
    requires Stacked(v)
    reads Footprint(v)
    decreases Depth(v)
  {
    match v
    case Database(db) => db.best
    case Cached(c) => if c.hashBlock == NULL_HASH then Best(c.base) else c.hashBlock
  }

  /** The block hash each view has of its own, top first; null where a cache has none. */
  ghost function Owns(v: View): (owns: seq<BlockHash>)
    requires Stacked(v)
    reads Footprint(v)
    ensures |owns| == |Levels(v)|
    decreases Depth(v)
  {
    match v
    case Database(db) => [db.best]
    case Cached(c) => [c.hashBlock] + Owns(c.base)
  }

  /** Flags mean what coins.h says at every level, the database holds no spent coin,
      and the usage counter is the sum over the entries. */
  ghost predicate Valid(v: View)
    reads Footprint(v)
    decreases Depth(v)
  {
    && Stacked(v)
    && match v
       case Database(db) => forall op <- db.coins :: !db.coins[op].IsSpent()
       case Cached(c) =>
         && Valid(c.base)
         && FlagsOk(Contents(c.base), c.cacheCoins)
         && c.cachedCoinsUsage == TotalUsage(c.cacheCoins)
  }

  lemma {:induction false} ContentsUnspent(v: View)
    requires Valid(v)
    ensures forall op <- Contents(v) :: !Contents(v)[op].IsSpent()
    decreases Depth(v)
  {
    if v.Cached? {
      ContentsUnspent(v.cache.base);
    }
  }

  /** Virtual dispatch of CCoinsView::GetCoin. */
  method ViewGetCoin(v: View, op: OutPoint) returns (found: bool, coin: Coin)
    requires Valid(v)
    modifies Footprint(v)
    ensures Valid(v) && Levels(v) == old(Levels(v)) && Owns(v) == old(Owns(v)) && Best(v) == old(Best(v))
    ensures found <==> op in Contents(v)
    ensures found ==> coin == Contents(v)[op]
    decreases Depth(v), 2
  {
    match v
    case Database(db) =>
      ContentsUnspent(v);
      found := op in db.coins;
      coin := if found then db.coins[op] else EMPTY_COIN;
    case Cached(c) =>
      found, coin := c.GetCoin(op);
  }

  /** Virtual dispatch of CCoinsView::GetBestBlock. */
  method ViewGetBestBlock(v: View) returns (hash: BlockHash)
    requires Valid(v)
    modifies Footprint(v)
    ensures Valid(v) && Levels(v) == old(Levels(v))
    ensures hash == Best(v) == old(Best(v))
    ensures Owns(v) == LookedUp(old(Owns(v))) && hash == Owns(v)[0]
    decreases Depth(v), 1
  {
    match v
    case Database(db) => hash := db.best;
    case Cached(c) => hash := c.GetBestBlock();
  }

  /** Virtual dispatch of CCoinsView::BatchWrite. */
  method ViewBatchWrite(v: View, mapCoins: CoinsMap, hashBlock: BlockHash) returns (r: Outcome)
    requires Valid(v)
    requires v.Database? ==> hashBlock != NULL_HASH
    modifies Footprint(v)
    ensures FlagsOk(old(Contents(v)), mapCoins) ==>
              && r == Done
              && Valid(v)
              && Levels(v) == [Overlay(old(Contents(v)), mapCoins)] + old(Levels(v))[1..]
    ensures r == Done ==>
              && Owns(v) == old(Owns(v))[0 := hashBlock]
              && Best(v) == if hashBlock != NULL_HASH then hashBlock else old(Best(v.cache.base))
  {
    match v
    case Database(db) =>
      ContentsUnspent(v);
      db.BatchWrite(mapCoins, hashBlock);
      r := Done;
    case Cached(c) =>
      r := c.BatchWrite(mapCoins, hashBlock);
  }

  /** Looking the best block up gives every view on the way the hash of the first that has one, or of the
      database. */
  function LookedUp(owns: seq<BlockHash>): (r: seq<BlockHash>)
    requires owns != []
    ensures |r| == |owns|
  {
    if owns[0] != NULL_HASH || |owns| == 1 then owns
    else
      var below := LookedUp(owns[1..]);
      [below[0]] + below
  }

  /** A write-back cache (`CCoinsViewCache`). */
  class CoinsCache {
    const base: View
    var hashBlock: BlockHash
    var cacheCoins: CoinsMap
    var cachedCoinsUsage: int

    ghost const depth: nat
    ghost const footprint: set<object>

    constructor (base: View)
      requires Valid(base)
      ensures this.base == base && hashBlock == NULL_HASH && cacheCoins == map[] && cachedCoinsUsage == 0
      ensures Valid(Cached(this)) && fresh(footprint - Footprint(base))
      ensures Levels(Cached(this)) == [Contents(base)] + Levels(base)
      ensures Best(Cached(this)) == Best(base) && Owns(Cached(this)) == [NULL_HASH] + Owns(base)
    {
      this.base := base;
      hashBlock := NULL_HASH;
      cacheCoins := map[];
      cachedCoinsUsage := 0;
      depth := Depth(base) + 1;
      footprint := {this} + Footprint(base);
      new;
      ContentsUnspent(base);
      assert Overlay(Contents(base), map[]) == Contents(base);
    }

    method FetchCoin(op: OutPoint) returns (found: bool)
      requires Valid(Cached(this))
      modifies footprint
      ensures Valid(Cached(this)) && Contents(Cached(this)) == old(Contents(Cached(this)))
      ensures Levels(base) == old(Levels(base)) && Best(base) == old(Best(base)) && hashBlock == old(hashBlock)
      ensures Owns(base) == old(Owns(base))
      ensures found <==> op in cacheCoins
      ensures found <==> op in old(cacheCoins) || op in old(Contents(Cached(this)))
      ensures cacheCoins == old(cacheCoins) ||
              (op !in old(cacheCoins) && found && cacheCoins == old(cacheCoins)[op := cacheCoins[op]])
      decreases depth, 0
    {
      hide TotalUsage, FlagsOk;
      if op in cacheCoins {
        return true;
      }
      var have, tmp := ViewGetCoin(base, op);
      if !have {
        return false;
      }
      InsertFetched(op, tmp);
      found := true;
    }

    /** The part of FetchCoin that records the coin found below. */
    method InsertFetched(op: OutPoint, tmp: Coin)
      requires Valid(Cached(this)) && op !in cacheCoins
      requires op in Contents(base) && tmp == Contents(base)[op]
      modifies this`cacheCoins, this`cachedCoinsUsage
      ensures Valid(Cached(this)) && Contents(Cached(this)) == old(Contents(Cached(this)))
      ensures cacheCoins == old(cacheCoins)[op := Entry(tmp, false, tmp.IsSpent())]
    {
      ContentsUnspent(base);
      FetchKeepsMeaning(Contents(base), cacheCoins, op);
      cacheCoins := cacheCoins[op := Entry(tmp, false, tmp.IsSpent())];
      cachedCoinsUsage := cachedCoinsUsage + tmp.DynamicMemoryUsage();
    }

    method GetCoin(op: OutPoint) returns (found: bool, coin: Coin)
      requires Valid(Cached(this))
      modifies footprint
      ensures Valid(Cached(this)) && Levels(Cached(this)) == old(Levels(Cached(this)))
      ensures Best(Cached(this)) == old(Best(Cached(this))) && Owns(Cached(this)) == old(Owns(Cached(this)))
      ensures found <==> op in Contents(Cached(this))
      ensures found ==> coin == Contents(Cached(this))[op]
      decreases depth, 1
    {
      hide TotalUsage, FlagsOk;
      coin := EMPTY_COIN;
      found := FetchCoin(op);
      if found {
        coin := cacheCoins[op].coin;
        found := !coin.IsSpent();
      }
    }

    method HaveCoin(op: OutPoint) returns (have: bool)
      requires Valid(Cached(this))
      modifies footprint
      ensures Valid(Cached(this)) && Levels(Cached(this)) == old(Levels(Cached(this)))
      ensures Best(Cached(this)) == old(Best(Cached(this))) && Owns(Cached(this)) == old(Owns(Cached(this)))
      ensures have <==> op in Contents(Cached(this))
    {
      have := FetchCoin(op);
      have := have && !cacheCoins[op].coin.IsSpent();
    }

    /** The stack stays valid exactly when the caller obeys the overwrite contract; the call throws
        exactly when it breaks it on an outpoint whose unspent coin this very cache holds. */
    method AddCoin(op: OutPoint, coin: Coin, isUnspendable: bool, possibleOverwrite: bool) returns (r: Outcome)
      requires Valid(Cached(this))
      requires !coin.IsSpent()
      modifies this
      ensures r == LogicError <==>
                !isUnspendable && !possibleOverwrite && op in old(cacheCoins) && !old(cacheCoins)[op].coin.IsSpent()
      ensures isUnspendable ==> unchanged(this)
      ensures r == Done ==>
                (Valid(Cached(this)) <==>
                 isUnspendable || possibleOverwrite || op !in old(Contents(Cached(this))))
      ensures r == Done && !isUnspendable ==> Contents(Cached(this)) == old(Contents(Cached(this)))[op := coin]
      ensures hashBlock == old(hashBlock)
    {
      if isUnspendable {
        return Done;
      }
      if !possibleOverwrite && op in cacheCoins && !cacheCoins[op].coin.IsSpent() {
        // The usage of the old coin is subtracted before the throw.
        cachedCoinsUsage := cachedCoinsUsage - cacheCoins[op].coin.DynamicMemoryUsage();
        return LogicError;
      }
      AddInserts(Contents(base), cacheCoins, op, coin, possibleOverwrite);
      AddEntry(op, coin, possibleOverwrite);
      r := Done;
    }

    /** The part of AddCoin that follows its check. */
    method AddEntry(op: OutPoint, coin: Coin, possibleOverwrite: bool)
      requires cachedCoinsUsage == TotalUsage(cacheCoins)
      modifies this`cacheCoins, this`cachedCoinsUsage
      ensures cacheCoins == AddedTo(old(cacheCoins), op, coin, possibleOverwrite)
      ensures cachedCoinsUsage == TotalUsage(cacheCoins)
    {
      AddUsage(cacheCoins, op, coin, possibleOverwrite);
      var entry := Entry(EMPTY_COIN, false, false);
      if op in cacheCoins {
        entry := cacheCoins[op];
        cachedCoinsUsage := cachedCoinsUsage - entry.coin.DynamicMemoryUsage();
      }
      var markFresh := !possibleOverwrite && !entry.isDirty;
      cacheCoins := cacheCoins[op := Entry(coin, true, entry.isFresh || markFresh)];
      cachedCoinsUsage := cachedCoinsUsage + coin.DynamicMemoryUsage();
    }

    /** The coin leaves the view. The flag says that an entry was found, which a spent entry left
        behind by an earlier spend also satisfies. */
    method SpendCoin(op: OutPoint) returns (spent: bool, moved: Coin)
      requires Valid(Cached(this))
      modifies footprint
      ensures Valid(Cached(this))
      ensures Contents(Cached(this)) == old(Contents(Cached(this))) - {op} && Levels(base) == old(Levels(base))
      ensures Best(base) == old(Best(base)) && hashBlock == old(hashBlock) && Owns(base) == old(Owns(base))
      ensures op in old(Contents(Cached(this))) ==> spent && moved == old(Contents(Cached(this)))[op]
      ensures op !in old(Contents(Cached(this))) ==> moved.IsSpent()
      ensures spent <==> op in old(cacheCoins) || op in old(Contents(Cached(this)))
    {
      hide TotalUsage, FlagsOk, Overlay;
      moved := EMPTY_COIN;
      spent := FetchCoin(op);
      if !spent {
        assert old(Contents(Cached(this))) - {op} == old(Contents(Cached(this)));
        return;
      }
      moved := SpendEntry(op);
    }

    /** The part of SpendCoin that works on the entry found. */
    method SpendEntry(op: OutPoint) returns (moved: Coin)
      requires Valid(Cached(this)) && op in cacheCoins
      modifies this`cacheCoins, this`cachedCoinsUsage
      ensures Valid(Cached(this)) && Contents(Cached(this)) == old(Contents(Cached(this))) - {op}
      ensures if op in old(Contents(Cached(this))) then moved == old(Contents(Cached(this)))[op] else moved.IsSpent()
    {
      hide TotalUsage, FlagsOk;
      SpendRemoves(Contents(base), cacheCoins, op);
      SpendUsage(cacheCoins, op);
      cachedCoinsUsage := cachedCoinsUsage - cacheCoins[op].coin.DynamicMemoryUsage();
      moved := cacheCoins[op].coin;
      if cacheCoins[op].isFresh {
        cacheCoins := cacheCoins - {op};
      } else {
        cacheCoins := cacheCoins[op := Entry(EMPTY_COIN, true, false)];
      }
    }

    method Uncache(op: OutPoint)
      requires Valid(Cached(this))
      modifies this
      ensures Valid(Cached(this)) && Levels(Cached(this)) == old(Levels(Cached(this)))
      ensures Best(Cached(this)) == old(Best(Cached(this))) && hashBlock == old(hashBlock)
      ensures op in cacheCoins ==> cacheCoins[op].isDirty || cacheCoins[op].isFresh
    {
      if op in cacheCoins && !cacheCoins[op].isDirty && !cacheCoins[op].isFresh {
        UncacheKeepsMeaning(Contents(base), cacheCoins, op);
        cachedCoinsUsage := cachedCoinsUsage - cacheCoins[op].coin.DynamicMemoryUsage();
        cacheCoins := cacheCoins - {op};
      }
    }

    method GetBestBlock() returns (hash: BlockHash)
      requires Valid(Cached(this))
      modifies footprint
      ensures Valid(Cached(this)) && Levels(Cached(this)) == old(Levels(Cached(this)))
      ensures hash == Best(Cached(this)) == old(Best(Cached(this)))
      ensures Owns(Cached(this)) == LookedUp(old(Owns(Cached(this)))) && hash == Owns(Cached(this))[0]
      decreases depth, 0
    {
      hide FlagsOk, TotalUsage, Overlay;
      if hashBlock == NULL_HASH {
        var h := ViewGetBestBlock(base);
        SetOwn(h);
      }
      hash := hashBlock;
    }

    /** The assignment in GetBestBlock. */
    method SetOwn(h: BlockHash)
      requires Valid(Cached(this))
      modifies this`hashBlock
      ensures Valid(Cached(this)) && Levels(Cached(this)) == old(Levels(Cached(this)))
      ensures hashBlock == h && Owns(base) == old(Owns(base)) && Best(base) == old(Best(base))
    {
      hashBlock := h;
    }

    method SetBestBlock(hash: BlockHash)
      requires Valid(Cached(this))
      modifies this`hashBlock
      ensures Valid(Cached(this)) && Levels(Cached(this)) == old(Levels(Cached(this)))
      ensures hashBlock == hash
    {
      hashBlock := hash;
    }

    /** Pushes a child's entries into this cache, one by one.
        It throws exactly when some dirty FRESH entry sits over an unspent coin of this cache. */
    method BatchWrite(mapCoins: CoinsMap, hash: BlockHash) returns (r: Outcome)
      requires Valid(Cached(this))
      modifies this
      ensures r == LogicError <==> AnyMisapplied(old(cacheCoins), mapCoins)
      ensures r == Done ==> hashBlock == hash
      ensures FlagsOk(old(Contents(Cached(this))), mapCoins) ==>
                && r == Done
                && Valid(Cached(this))
                && Contents(Cached(this)) == Overlay(old(Contents(Cached(this))), mapCoins)
    {
      PushMeaning(Contents(base), cacheCoins, mapCoins);
      r := PushAll(mapCoins);
      if r == Done {
        hashBlock := hash;
      }
    }

    method PushAll(mapCoins: CoinsMap) returns (r: Outcome)
      requires cachedCoinsUsage == TotalUsage(cacheCoins)
      modifies this`cacheCoins, this`cachedCoinsUsage
      ensures r == LogicError <==> AnyMisapplied(old(cacheCoins), mapCoins)
      ensures r == Done ==> cacheCoins == Pushed(old(cacheCoins), mapCoins)
      ensures r == Done ==> cachedCoinsUsage == TotalUsage(cacheCoins)
    {
      var rest := mapCoins.Keys;
      PushedNothing(cacheCoins, mapCoins);
      while rest != {}
        invariant rest <= mapCoins.Keys
        invariant cacheCoins == Pushed(old(cacheCoins), mapCoins - rest)
        invariant cachedCoinsUsage == TotalUsage(cacheCoins)
        invariant !AnyMisapplied(old(cacheCoins), mapCoins - rest)
        decreases rest
      {
        var op :| op in rest;
        PushedStep(old(cacheCoins), mapCoins, rest, op);
        r := PushEntry(op, mapCoins[op]);
        if r == LogicError {
          return;
        }
        rest := rest - {op};
      }
      r := Done;
      assert mapCoins - {} == mapCoins;
    }

    /** One turn of the loop in BatchWrite. */
    method PushEntry(op: OutPoint, child: Entry) returns (r: Outcome)
      requires cachedCoinsUsage == TotalUsage(cacheCoins)
      modifies this`cacheCoins, this`cachedCoinsUsage
      ensures r == LogicError <==> Misapplied(SlotOf(old(cacheCoins), op), child)
      ensures r == Done ==> cacheCoins == WithSlot(old(cacheCoins), op, Push(SlotOf(old(cacheCoins), op), child))
      ensures cachedCoinsUsage == TotalUsage(cacheCoins)
    {
      if child.isDirty {
        if op !in cacheCoins {
          // A pruned child entry that is FRESH needs no trace here.
          if !(child.isFresh && child.coin.IsSpent()) {
            cacheCoins := cacheCoins[op := Entry(child.coin, true, child.isFresh)];
            TotalUsageUpdate(old(cacheCoins), op, cacheCoins[op]);
            cachedCoinsUsage := cachedCoinsUsage + child.coin.DynamicMemoryUsage();
          }
        } else {
          if child.isFresh && !cacheCoins[op].coin.IsSpent() {
            return LogicError;
          }
          TotalUsageRemove(cacheCoins, op);
          cachedCoinsUsage := cachedCoinsUsage - cacheCoins[op].coin.DynamicMemoryUsage();
          if cacheCoins[op].isFresh && child.coin.IsSpent() {
            cacheCoins := cacheCoins - {op};
          } else {
            // The child's FRESH flag is not copied onto an entry that exists here.
            cacheCoins := cacheCoins[op := Entry(child.coin, true, cacheCoins[op].isFresh)];
            TotalUsageUpdate(old(cacheCoins), op, cacheCoins[op]);
            cachedCoinsUsage := cachedCoinsUsage + child.coin.DynamicMemoryUsage();
          }
        }
      }
      r := Done;
    }

    /** The view one level down becomes this cache's view; this cache's own view does not change.
        The best block travels down only when this cache has looked it up or set it: a null hash
        overwrites the parent's, so a block set there and not yet flushed is lost. */
    method Flush() returns (r: Outcome)
      requires Valid(Cached(this))
      requires base.Database? ==> hashBlock != NULL_HASH
      modifies footprint
      ensures r == Done && Valid(Cached(this))
      ensures Contents(Cached(this)) == old(Contents(Cached(this)))
      ensures Levels(base) == [old(Contents(Cached(this)))] + old(Levels(base))[1..]
      ensures cacheCoins == map[] && cachedCoinsUsage == 0 && hashBlock == old(hashBlock)
      ensures hashBlock != NULL_HASH ==> Best(base) == hashBlock
      ensures Owns(base) == old(Owns(base))[0 := hashBlock]
      ensures base.Cached? ==>
                (Best(base) == old(Best(Cached(this))) <==>
                 || hashBlock != NULL_HASH
                 || old(base.cache.hashBlock) == NULL_HASH
                 || old(base.cache.hashBlock) == old(Best(base.cache.base)))
    {
      r := ViewBatchWrite(base, cacheCoins, hashBlock);
      Clear();
    }

    method Clear()
      requires Stacked(Cached(this)) && Valid(base)
      modifies this`cacheCoins, this`cachedCoinsUsage
      ensures Valid(Cached(this)) && Contents(Cached(this)) == Contents(base)
      ensures cacheCoins == map[] && cachedCoinsUsage == 0
    {
      ContentsUnspent(base);
      cacheCoins := map[];
      cachedCoinsUsage := 0;
    }
  }

  lemma PushedNothing(cache: CoinsMap, m: CoinsMap)
    ensures cache == Pushed(cache, m - m.Keys) && !AnyMisapplied(cache, m - m.Keys)
  {
    assert m - m.Keys == map[];
  }

  lemma PushedStep(cache: CoinsMap, m: CoinsMap, rest: set<OutPoint>, op: OutPoint)
    requires op in m && op in rest
    ensures var now := Pushed(cache, m - rest);
            && WithSlot(now, op, Push(SlotOf(now, op), m[op])) == Pushed(cache, m - (rest - {op}))
            && (AnyMisapplied(cache, m - (rest - {op})) <==>
                AnyMisapplied(cache, m - rest) || Misapplied(SlotOf(now, op), m[op]))
            && (Misapplied(SlotOf(now, op), m[op]) ==> AnyMisapplied(cache, m))
  {
    var now := Pushed(cache, m - rest);
    assert SlotOf(now, op) == SlotOf(cache, op);
    var after := WithSlot(now, op, Push(SlotOf(now, op), m[op]));
    forall o: OutPoint
      ensures SlotOf(after, o) == SlotOf(Pushed(cache, m - (rest - {op})), o)
    {
    }
    SlotsDetermine(after, Pushed(cache, m - (rest - {op})));
    assert op in m - (rest - {op});
  }

  lemma SlotsDetermine(a: CoinsMap, b: CoinsMap)
    requires forall op :: SlotOf(a, op) == SlotOf(b, op)
    ensures a == b
  {
    forall op: OutPoint
      ensures op in a <==> op in b
      ensures op in a ==> a[op] == b[op]
    {
      assert SlotOf(a, op) == SlotOf(b, op);
    }
  }

  /** PushedIsChildView as an implication, for a child whose flags are not known to be truthful. */
  lemma PushMeaning(below: Utxo, cache: CoinsMap, m: CoinsMap)
    requires FlagsOk(below, cache)
    ensures FlagsOk(Overlay(below, cache), m) ==>
              && !AnyMisapplied(cache, m)
              && FlagsOk(below, Pushed(cache, m))
              && Overlay(below, Pushed(cache, m)) == Overlay(Overlay(below, cache), m)
  {
    if FlagsOk(Overlay(below, cache), m) {
      PushedIsChildView(below, cache, m);
    }
  }

  /** The outputs of one transaction, each with the verdict of IsUnspendable on its script. */
  datatype Output = Output(out: TxOut, isUnspendable: bool)

  /** `u` with the first `k` outputs of a transaction added. */
  ghost function WithOutputs(u: Utxo, txid: nat, outs: seq<Output>, height: nat, coinBase: bool, k: nat): Utxo
    requires k <= |outs|
  {
    if k == 0 then u
    else
      var before := WithOutputs(u, txid, outs, height, coinBase, k - 1);
      if outs[k - 1].isUnspendable then before
      else before[OutPoint(txid, k - 1) := Coin(outs[k - 1].out, coinBase, height)]
  }

  lemma {:induction false} WithOutputsElsewhere(u: Utxo, txid: nat, outs: seq<Output>, height: nat, coinBase: bool,
                                                k: nat, n: nat)
    requires k <= n && k <= |outs|
    ensures OutPoint(txid, n) in WithOutputs(u, txid, outs, height, coinBase, k) <==> OutPoint(txid, n) in u
  {
    if k != 0 {
      WithOutputsElsewhere(u, txid, outs, height, coinBase, k - 1, n);
    }
  }

  /** The coin part of AddCoins: it never throws and stays valid when it looks before it adds, for a
      coinbase, and otherwise as long as none of the outputs is in the view yet. */
  method AddCoins(cache: CoinsCache, txid: nat, outs: seq<Output>, height: nat, coinBase: bool, check: bool)
    returns (r: Outcome)
    requires Valid(Cached(cache))
    requires forall o <- outs :: o.out.value != -1
    requires check || coinBase ||
             forall i | 0 <= i < |outs| :: OutPoint(txid, i) !in Contents(Cached(cache))
    modifies cache.footprint
    ensures r == Done && Valid(Cached(cache))
    ensures Contents(Cached(cache)) == WithOutputs(old(Contents(Cached(cache))), txid, outs, height, coinBase, |outs|)
    ensures Levels(cache.base) == old(Levels(cache.base))
  {
    ghost var u := Contents(Cached(cache));
    ghost var below := Levels(cache.base);
    for i := 0 to |outs|
      invariant Valid(Cached(cache)) && Levels(cache.base) == below
      invariant Contents(Cached(cache)) == WithOutputs(u, txid, outs, height, coinBase, i)
    {
      WithOutputsElsewhere(u, txid, outs, height, coinBase, i, i);
      r := AddOutput(cache, OutPoint(txid, i), Coin(outs[i].out, coinBase, height), outs[i].isUnspendable, check);
    }
    r := Done;
  }

  /** One turn of the loop in AddCoins. */
  method AddOutput(cache: CoinsCache, op: OutPoint, coin: Coin, isUnspendable: bool, check: bool) returns (r: Outcome)
    requires Valid(Cached(cache)) && !coin.IsSpent()
    requires check || coin.coinBase || op !in Contents(Cached(cache))
    modifies cache.footprint
    ensures r == Done && Valid(Cached(cache)) && Levels(cache.base) == old(Levels(cache.base))
    ensures Contents(Cached(cache)) ==
              if isUnspendable then old(Contents(Cached(cache))) else old(Contents(Cached(cache)))[op := coin]
  {
    var overwrite := coin.coinBase;
    if check {
      overwrite := cache.HaveCoin(op);
      assert Levels(Cached(cache))[1..] == Levels(cache.base);
    }
    r := cache.AddCoin(op, coin, isUnspendable, overwrite);
  }

  // --- Whole runs ---------------------------------------------------------------------------

  /** A client works on the top cache only; Open and Discard put a cache on the stack and drop it. */
  datatype Op =
    | Get(op: OutPoint)
    | Have(op: OutPoint)
    | Add(op: OutPoint, coin: Coin, isUnspendable: bool, possibleOverwrite: bool)
    | Spend(op: OutPoint)
    | Uncache(op: OutPoint)
    | GetBest
    | SetBest(hash: BlockHash)
    | Flush
    | Open
    | Discard

  datatype Answer = Nothing | Missing | Found(coin: Coin) | Yes | No | At(hash: BlockHash)

  /** The reference: a stack of plain maps, with no cache, no flag and no laziness, each with the block hash
      it was given. */
  datatype Plain = Plain(levels: seq<Utxo>, owns: seq<BlockHash>)

  ghost predicate IsStack(p: Plain) {
    |p.levels| == |p.owns| >= 2
  }

  ghost function PlainStep(p: Plain, o: Op): (after: Plain)
    requires IsStack(p) && (o == Discard ==> |p.levels| >= 3)
    ensures IsStack(after)
  {
    var levels, owns := p.levels, p.owns;
    match o
    case Add(op, coin, isUnspendable, _) =>
      if isUnspendable then p else Plain([levels[0][op := coin]] + levels[1..], owns)
    case Spend(op) => Plain([levels[0] - {op}] + levels[1..], owns)
    case GetBest => Plain(levels, LookedUp(owns))
    case SetBest(hash) => Plain(levels, [hash] + owns[1..])
    case Flush => Plain([levels[0], levels[0]] + levels[2..], [owns[0], owns[0]] + owns[2..])
    case Open => Plain([levels[0]] + levels, [NULL_HASH] + owns)
    case Discard => Plain(levels[1..], owns[1..])
    case _ => p
  }

  ghost function PlainAnswer(p: Plain, o: Op): Answer
    requires IsStack(p)
  {
    match o
    case Get(op) => if op in p.levels[0] then Found(p.levels[0][op]) else Missing
    case Have(op) => if op in p.levels[0] then Yes else No
    case Spend(op) => if op in p.levels[0] then Found(p.levels[0][op]) else Missing
    case GetBest => At(LookedUp(p.owns)[0])
    case _ => Nothing
  }

  /** What the callees assert of their callers: AddCoin wants an unspent coin and the overwrite flag
      whenever a coin is there, the database wants a block hash. */
  ghost predicate Legal(p: Plain, o: Op)
    requires IsStack(p)
  {
    match o
    case Add(op, coin, isUnspendable, possibleOverwrite) =>
      !coin.IsSpent() && (isUnspendable || possibleOverwrite || op !in p.levels[0])
    case Flush => |p.levels| == 2 ==> p.owns[0] != NULL_HASH
    case Discard => |p.levels| >= 3
    case _ => true
  }

  ghost predicate LegalRun(p: Plain, ops: seq<Op>)
    requires IsStack(p)
    decreases |ops|
  {
    ops == [] || (Legal(p, ops[0]) && LegalRun(PlainStep(p, ops[0]), ops[1..]))
  }

  ghost function PlainRun(p: Plain, ops: seq<Op>): Plain
    requires IsStack(p) && LegalRun(p, ops)
    decreases |ops|
  {
    if ops == [] then p else PlainRun(PlainStep(p, ops[0]), ops[1..])
  }

  ghost function PlainAnswers(p: Plain, ops: seq<Op>): seq<Answer>
    requires IsStack(p) && LegalRun(p, ops)
    decreases |ops|
  {
    if ops == [] then []
    else [PlainAnswer(p, ops[0])] + PlainAnswers(PlainStep(p, ops[0]), ops[1..])
  }

  /** What a stack of caches stands for. */
  ghost function PlainOf(top: CoinsCache): (p: Plain)
    requires Stacked(Cached(top))
    reads top.footprint
    ensures IsStack(p)
  {
    Plain(Levels(Cached(top)), Owns(Cached(top)))
  }

  /** The operations on coins of the top cache. */
  method StepInPlace(top: CoinsCache, o: Op) returns (answer: Answer)
    requires Valid(Cached(top)) && Legal(PlainOf(top), o)
    requires o.Get? || o.Have? || o.Add? || o.Spend? || o.Uncache?
    modifies top.footprint
    ensures Valid(Cached(top))
    ensures PlainOf(top) == PlainStep(old(PlainOf(top)), o)
    ensures answer == PlainAnswer(old(PlainOf(top)), o)
  {
    answer := Nothing;
    match o {
      case Get(op) =>
        var found, coin := top.GetCoin(op);
        answer := if found then Found(coin) else Missing;
      case Have(op) =>
        var have := top.HaveCoin(op);
        answer := if have then Yes else No;
      case Add(op, coin, isUnspendable, possibleOverwrite) =>
        var r := top.AddCoin(op, coin, isUnspendable, possibleOverwrite);
        assert r == Done;
      case Spend(op) =>
        ContentsUnspent(Cached(top));
        var _, moved := top.SpendCoin(op);
        answer := if moved.IsSpent() then Missing else Found(moved);
      case Uncache(op) =>
        top.Uncache(op);
    }
  }

  /** The operations on the best block. */
  method StepBest(top: CoinsCache, o: Op) returns (answer: Answer)
    requires Valid(Cached(top)) && (o.GetBest? || o.SetBest?)
    modifies top.footprint
    ensures Valid(Cached(top))
    ensures PlainOf(top) == PlainStep(old(PlainOf(top)), o)
    ensures answer == PlainAnswer(old(PlainOf(top)), o)
  {
    hide FlagsOk, TotalUsage, Overlay;
    answer := Nothing;
    if o.GetBest? {
      var hash := top.GetBestBlock();
      answer := At(hash);
    } else {
      top.SetBestBlock(o.hash);
    }
  }

  method StepFlush(top: CoinsCache)
    requires Valid(Cached(top)) && Legal(PlainOf(top), Flush)
    modifies top.footprint
    ensures Valid(Cached(top))
    ensures PlainOf(top) == PlainStep(old(PlainOf(top)), Flush)
  {
    hide FlagsOk, TotalUsage, Overlay;
    StackSize(top.base);
    ghost var levels, owns := Levels(top.base), Owns(top.base);
    ghost var contents, own := Contents(Cached(top)), top.hashBlock;
    ghost var before := PlainOf(top);
    assert before.levels == [contents] + levels && before.owns == [own] + owns;
    var r := top.Flush();
    assert Levels(Cached(top)) == [contents] + Levels(top.base) && Owns(Cached(top)) == [own] + Owns(top.base);
    Downwards(contents, levels);
    Downwards(own, owns);
  }

  /** The top element also replaces the one below it. */
  lemma Downwards<T>(x: T, below: seq<T>)
    requires |below| > 0
    ensures [x] + ([x] + below[1..]) == [x, x] + ([x] + below)[2..] && below[0 := x] == [x] + below[1..]
  {
  }

  lemma StackSize(v: View)
    requires Stacked(v)
    ensures |Levels(v)| == 1 <==> v.Database?
  {
  }

  /** The operations that change the stack. */
  method StepStack(top: CoinsCache, o: Op) returns (newTop: CoinsCache)
    requires Valid(Cached(top)) && Legal(PlainOf(top), o) && (o.Open? || o.Discard?)
    ensures Valid(Cached(newTop)) && fresh(newTop.footprint - top.footprint)
    ensures PlainOf(newTop) == PlainStep(PlainOf(top), o)
  {
    hide FlagsOk, TotalUsage, Overlay;
    if o.Open? {
      newTop := new CoinsCache(Cached(top));
    } else {
      StackSize(top.base);
      newTop := top.base.cache;
    }
  }

  method Step(top: CoinsCache, o: Op) returns (newTop: CoinsCache, answer: Answer)
    requires Valid(Cached(top)) && Legal(PlainOf(top), o)
    modifies top.footprint
    ensures Valid(Cached(newTop)) && fresh(newTop.footprint - top.footprint)
    ensures PlainOf(newTop) == PlainStep(old(PlainOf(top)), o)
    ensures answer == PlainAnswer(old(PlainOf(top)), o)
  {
    hide FlagsOk, TotalUsage, Overlay, Levels, Owns;
    newTop, answer := top, Nothing;
    if o.GetBest? || o.SetBest? {
      answer := StepBest(top, o);
    } else if o.Flush? {
      StepFlush(top);
    } else if o.Open? || o.Discard? {
      newTop := StepStack(top, o);
    } else {
      answer := StepInPlace(top, o);
    }
  }

  /** Every run of the cache stack, of any depth and length, is a run of the plain maps: same answers, same
      contents and same block hash at every level, and no logic_error on the way. */
  method Run(top: CoinsCache, ops: seq<Op>) returns (newTop: CoinsCache, answers: seq<Answer>)
    requires Valid(Cached(top)) && LegalRun(PlainOf(top), ops)
    modifies top.footprint
    ensures Valid(Cached(newTop))
    ensures PlainOf(newTop) == PlainRun(old(PlainOf(top)), ops)
    ensures answers == PlainAnswers(old(PlainOf(top)), ops)
    decreases |ops|
  {
    newTop, answers := top, [];
    if ops != [] {
      var mid, first := Step(top, ops[0]);
      var rest;
      newTop, rest := Run(mid, ops[1..]);
      answers := [first] + rest;
    }
  }
}
