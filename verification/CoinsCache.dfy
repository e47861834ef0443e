/**
 * CCoinsViewCache objects stacked to any depth over a backing store (src/coins.cpp), and
 * the theorem that the top of the stack behaves like a plain map of unspent coins.
 */
module CoinsCache {
  import opened Coins

  /** The view at the bottom of the stack: a key/value store of unspent coins. */
  class CoinsViewStore {
    var coins: Store
    var hashBlock: Hash

    constructor (coins: Store, hashBlock: Hash)
      ensures this.coins == coins && this.hashBlock == hashBlock
    {
      this.coins := coins;
      this.hashBlock := hashBlock;
    }

    method BatchWrite(mapCoins: CoinsMap, hashBlockIn: Hash)
      modifies this
      ensures forall k :: Lookup(coins, k) == if k in mapCoins && mapCoins[k].isDirty then mapCoins[k].coin else Lookup(old(coins), k)
      ensures (forall k :: OkAt(Lookup(old(coins), k), mapCoins, k)) ==>
                forall k :: Lookup(coins, k) == Show(Lookup(old(coins), k), mapCoins, k)
      ensures hashBlock == hashBlockIn
    {
      ghost var coins0 := coins;
      var rest := mapCoins;
      while rest != map[]
        invariant forall k :: k in rest ==> k in mapCoins && rest[k] == mapCoins[k]
        invariant forall k :: Lookup(coins, k) == if k in mapCoins && k !in rest && mapCoins[k].isDirty then mapCoins[k].coin
                                                  else Lookup(coins0, k)
        decreases rest.Keys
      {
        var k :| k in rest;
        coins := StoreEntry(coins, k, rest[k]);
        rest := rest - {k};
      }
      hashBlock := hashBlockIn;
      if forall k :: OkAt(Lookup(coins0, k), mapCoins, k) {
        forall k ensures Lookup(coins, k) == Show(Lookup(coins0, k), mapCoins, k) {
          assert OkAt(Lookup(coins0, k), mapCoins, k);
        }
      }
    }
  }

  ghost predicate SameAt(a: CoinsMap, b: CoinsMap, k: OutPoint) {
    (k in a <==> k in b) && (k in a ==> a[k] == b[k])
  }

  // At k the cache is as before the batch while k is pending or absent from it, and as
  // written once k is done.
  ghost predicate Written(before: CoinsMap, batch: CoinsMap, pending: set<OutPoint>, cache: CoinsMap, k: OutPoint) {
    SameAt(cache, if k in batch && k !in pending then WriteEntry(before, k, batch[k]) else before, k)
  }

  class CoinsViewCache {
    // The view below: another cache, or the store when base is null.
    const base: CoinsViewCache?
    const store: CoinsViewStore
    // Everything underneath this layer.
    ghost const below: set<object>

    var cacheCoins: CoinsMap
    var cachedCoinsUsage: int
    var hashBlock: Hash

    ghost predicate Linked()
      decreases below
    {
      && this !in below
      && store in below
      && (base == null ==> below == {store})
      && (base != null ==>
            && base.store == store
            && base !in base.below
            && below == base.below + {base}
            && base.Linked())
    }

    // The coin shown at k by the view below ...
    ghost function BaseCoin(k: OutPoint): Coin
      requires Linked()
      reads below
      decreases below, 0
    {
      if base == null then Lookup(store.coins, k) else base.CoinAt(k)
    }

    // ... and by this layer.
    ghost function CoinAt(k: OutPoint): Coin
      requires Linked()
      reads this, below
      decreases below, 1
    {
      Show(BaseCoin(k), cacheCoins, k)
    }

    // The block this layer claims to represent; null is looked up below.
    ghost function BestBlock(): Hash
      requires Linked()
      reads this, below
      decreases below, 1
    {
      if hashBlock != NULL_HASH then hashBlock else BaseBestBlock()
    }

    ghost function BaseBestBlock(): Hash
      requires Linked()
      reads below
      decreases below, 0
    {
      if base == null then store.hashBlock else base.BestBlock()
    }

    ghost predicate Valid()
      reads this, below
      decreases below
    {
      && Linked()
      && (base != null ==> base.Valid())
      && (forall k :: OkAt(BaseCoin(k), cacheCoins, k))
      && cachedCoinsUsage == TotalUsage(cacheCoins)
    }

    // Valid but for the flags of this layer's entries.
    ghost predicate Wired()
      reads this, below
    {
      Linked() && (base != null ==> base.Valid()) && cachedCoinsUsage == TotalUsage(cacheCoins)
    }

    // Whether an add at k is one the caller is entitled to: without the overwrite flag no coin
    // may hide below an uncached outpoint.
    ghost predicate MayAdd(k: OutPoint, coin: Coin, possibleOverwrite: bool)
      requires Linked() && !coin.Spent?
      reads this, below
    {
      possibleOverwrite || k in cacheCoins || CoinAt(k).Spent? || IsUnspendable(coin.out.script)
    }

    constructor (base: CoinsViewCache?, store: CoinsViewStore)
      requires base != null ==> base.Valid() && base.store == store
      ensures Valid() && this.base == base && this.store == store
      ensures forall k :: CoinAt(k) == if base == null then Lookup(store.coins, k) else base.CoinAt(k)
      ensures BestBlock() == BaseBestBlock()
    {
      this.base := base;
      this.store := store;
      this.below := if base == null then {store} else base.below + {base};
      this.cacheCoins := map[];
      this.cachedCoinsUsage := 0;
      this.hashBlock := NULL_HASH;
    }

    // Brings the entry for k into this layer and every layer passed through below.
    method FetchCoin(k: OutPoint) returns (found: bool)
      requires Valid()
      modifies this, below - {store}
      ensures Valid()
      ensures forall j :: BaseCoin(j) == old(BaseCoin(j))
      ensures cacheCoins == FetchEntry(old(BaseCoin(k)), old(cacheCoins), k)
      ensures hashBlock == old(hashBlock) && BestBlock() == old(BestBlock())
      ensures found <==> k in cacheCoins
      decreases below, 0
    {
      if k in cacheCoins {
        return true;
      }
      var tmp: Coin;
      if base == null {
        tmp := Lookup(store.coins, k);
        found := !tmp.Spent?;
      } else {
        found, tmp := base.GetCoin(k);
        assert forall j :: BaseCoin(j) == base.CoinAt(j);
      }
      assert forall j :: BaseCoin(j) == old(BaseCoin(j));
      if found {
        SetHere(k, CacheEntry(tmp, false, tmp.Spent?));
      }
    }

    // Emplaces or overwrites an entry, keeping the memory count.
    method SetHere(k: OutPoint, e: CacheEntry)
      requires cachedCoinsUsage == TotalUsage(cacheCoins)
      modifies this`cacheCoins, this`cachedCoinsUsage
      ensures cacheCoins == old(cacheCoins)[k := e]
      ensures cachedCoinsUsage == TotalUsage(cacheCoins)
    {
      TotalUsagePut(cacheCoins, k, e);
      if k in cacheCoins {
        cachedCoinsUsage := cachedCoinsUsage - Usage(cacheCoins[k].coin);
      }
      cacheCoins := cacheCoins[k := e];
      cachedCoinsUsage := cachedCoinsUsage + Usage(e.coin);
    }

    // Erases an entry, keeping the memory count.
    method EraseHere(k: OutPoint)
      requires k in cacheCoins && cachedCoinsUsage == TotalUsage(cacheCoins)
      modifies this`cacheCoins, this`cachedCoinsUsage
      ensures cacheCoins == old(cacheCoins) - {k}
      ensures cachedCoinsUsage == TotalUsage(cacheCoins)
    {
      TotalUsageRemove(cacheCoins, k);
      cachedCoinsUsage := cachedCoinsUsage - Usage(cacheCoins[k].coin);
      cacheCoins := cacheCoins - {k};
    }

    method GetCoin(k: OutPoint) returns (found: bool, coin: Coin)
      requires Valid()
      modifies this, below - {store}
      ensures Valid() && BestBlock() == old(BestBlock())
      ensures forall j :: CoinAt(j) == old(CoinAt(j))
      ensures coin == CoinAt(k) && (found <==> !coin.Spent?)
      decreases below, 1
    {
      var fetched := FetchCoin(k);
      if fetched {
        coin := cacheCoins[k].coin;
        found := !coin.Spent?;
      } else {
        coin := Spent;
        found := false;
      }
    }

    method HaveCoin(k: OutPoint) returns (have: bool)
      requires Valid()
      modifies this, below - {store}
      ensures Valid() && BestBlock() == old(BestBlock())
      ensures forall j :: CoinAt(j) == old(CoinAt(j))
      ensures have <==> !CoinAt(k).Spent?
    {
      var fetched := FetchCoin(k);
      have := fetched && !cacheCoins[k].coin.Spent?;
    }

    // The coin is shown afterwards in any case; the flags are right exactly for an add the
    // caller is entitled to.  When the call throws, the entry's memory has already been
    // subtracted from the count.
    method AddCoin(k: OutPoint, coin: Coin, possibleOverwrite: bool) returns (threw: bool)
      requires Wired() && !coin.Spent?
      modifies this
      ensures threw <==> !IsUnspendable(coin.out.script) && AddThrows(old(cacheCoins), k, possibleOverwrite)
      ensures hashBlock == old(hashBlock) && BestBlock() == old(BestBlock())
      ensures !threw ==> Wired()
      ensures !threw ==>
                forall j :: CoinAt(j) == if j == k && !IsUnspendable(coin.out.script) then coin else old(CoinAt(j))
      ensures old(Valid()) && !threw ==> (Valid() <==> old(MayAdd(k, coin, possibleOverwrite)))
      ensures threw ==> cacheCoins == old(cacheCoins)
                        && cachedCoinsUsage == old(cachedCoinsUsage) - Usage(old(CoinAt(k)))
    {
      if IsUnspendable(coin.out.script) {
        return false;
      }
      var it := if k in cacheCoins then cacheCoins[k] else CacheEntry(Spent, false, false);
      var markFresh := false;
      if !possibleOverwrite {
        if !it.coin.Spent? {
          cachedCoinsUsage := cachedCoinsUsage - Usage(it.coin);
          return true;
        }
        markFresh := !it.isDirty;
      }
      ghost var cache0 := cacheCoins;
      SetHere(k, CacheEntry(coin, true, it.isFresh || markFresh));
      assert forall j :: BaseCoin(j) == old(BaseCoin(j));
      if old(Valid()) {
        assert OkAt(old(BaseCoin(k)), cache0, k);
        AddKeepsLayerIff(BaseCoin(k), cache0, k, coin, possibleOverwrite);
        assert cacheCoins == AddEntry(cache0, k, coin, possibleOverwrite);
        OthersKeep(cache0, k, cacheCoins[k]);
      }
      return false;
    }

    // Writing one entry leaves the others as consistent as they were.
    lemma OthersKeep(cache: CoinsMap, k: OutPoint, e: CacheEntry)
      requires Linked() && forall j :: OkAt(BaseCoin(j), cache, j)
      ensures (forall j :: OkAt(BaseCoin(j), cache[k := e], j)) <==> OkAt(BaseCoin(k), cache[k := e], k)
    {
      assert forall j :: j != k ==> (OkAt(BaseCoin(j), cache[k := e], j) <==> OkAt(BaseCoin(j), cache, j));
    }

    // The flag justCheck is passed in by every caller and never looked at.
    method SpendCoin(k: OutPoint, justCheck: bool) returns (ok: bool, moveout: Coin)
      requires Valid()
      modifies this, below - {store}
      ensures Valid() && BestBlock() == old(BestBlock())
      ensures forall j :: CoinAt(j) == if j == k then Spent else old(CoinAt(j))
      ensures moveout == old(CoinAt(k))
      ensures ok <==> !moveout.Spent? || k in old(cacheCoins)
    {
      ok := FetchCoin(k);
      if !ok {
        return false, Spent;
      }
      assert OkAt(BaseCoin(k), cacheCoins, k);
      moveout := cacheCoins[k].coin;
      if cacheCoins[k].isFresh {
        EraseHere(k);
      } else {
        SetHere(k, CacheEntry(Spent, true, false));
      }
    }

    method Uncache(k: OutPoint)
      requires Valid()
      modifies this
      ensures Valid() && BestBlock() == old(BestBlock())
      ensures forall j :: CoinAt(j) == old(CoinAt(j))
      ensures cacheCoins == UncacheEntry(old(cacheCoins), k)
    {
      assert OkAt(BaseCoin(k), cacheCoins, k);
      if k in cacheCoins && !cacheCoins[k].isDirty && !cacheCoins[k].isFresh {
        EraseHere(k);
      }
    }

    method GetBestBlock() returns (h: Hash)
      requires Valid()
      modifies this, below - {store}
      ensures Valid() && h == BestBlock() == old(BestBlock())
      ensures forall j :: CoinAt(j) == old(CoinAt(j))
      decreases below
    {
      if hashBlock == NULL_HASH {
        if base == null {
          h := store.hashBlock;
        } else {
          h := base.GetBestBlock();
          assert forall j :: BaseCoin(j) == base.CoinAt(j);
        }
        assert forall j :: BaseCoin(j) == old(BaseCoin(j));
        hashBlock := h;
      }
      h := hashBlock;
    }

    // Takes over the entries of a child.  The logic_error is thrown exactly when a dirty
    // FRESH child entry meets an unspent entry here; a child that satisfied its own layer
    // invariant never causes that.
    method BatchWrite(mapCoins: CoinsMap, hashBlockIn: Hash) returns (threw: bool)
      requires Valid()
      modifies this
      ensures threw <==> exists k :: k in mapCoins && WriteThrows(old(cacheCoins), k, mapCoins[k])
      ensures (forall k :: OkAt(old(CoinAt(k)), mapCoins, k)) ==>
                && !threw
                && Valid()
                && (forall k :: CoinAt(k) == Show(old(CoinAt(k)), mapCoins, k))
                && hashBlock == hashBlockIn
    {
      ghost var cache0 := cacheCoins;
      threw := WriteAll(mapCoins);
      if !threw {
        hashBlock := hashBlockIn;
      }
      assert forall k :: BaseCoin(k) == old(BaseCoin(k));
      if forall k :: OkAt(old(CoinAt(k)), mapCoins, k) {
        forall k
          ensures k in mapCoins ==> !WriteThrows(cache0, k, mapCoins[k])
          ensures !threw ==> OkAt(BaseCoin(k), cacheCoins, k)
          ensures !threw ==> CoinAt(k) == Show(old(CoinAt(k)), mapCoins, k)
        {
          assert OkAt(old(BaseCoin(k)), cache0, k) && OkAt(old(CoinAt(k)), mapCoins, k);
          if k in mapCoins { WriteEntryCorrect(BaseCoin(k), cache0, k, mapCoins[k]); }
        }
      }
    }

    // The loop of BatchWrite.
    method WriteAll(mapCoins: CoinsMap) returns (threw: bool)
      requires cachedCoinsUsage == TotalUsage(cacheCoins)
      modifies this`cacheCoins, this`cachedCoinsUsage
      ensures cachedCoinsUsage == TotalUsage(cacheCoins)
      ensures threw <==> exists k :: k in mapCoins && WriteThrows(old(cacheCoins), k, mapCoins[k])
      ensures !threw ==> forall k :: if k in mapCoins then SameAt(cacheCoins, WriteEntry(old(cacheCoins), k, mapCoins[k]), k)
                                     else SameAt(cacheCoins, old(cacheCoins), k)
    {
      ghost var cache0 := cacheCoins;
      var rest := mapCoins;
      while rest != map[]
        invariant rest.Keys <= mapCoins.Keys
        invariant forall k :: k in rest ==> rest[k] == mapCoins[k]
        invariant forall k :: k in mapCoins && k !in rest ==> !WriteThrows(cache0, k, mapCoins[k])
        invariant forall k :: Written(cache0, mapCoins, rest.Keys, cacheCoins, k)
        invariant cachedCoinsUsage == TotalUsage(cacheCoins)
        decreases rest.Keys
      {
        var k :| k in rest;
        var e := rest[k];
        ghost var cache1 := cacheCoins;
        assert Written(cache0, mapCoins, rest.Keys, cache1, k);
        if e.isDirty && e.isFresh && k in cacheCoins && !cacheCoins[k].coin.Spent? {
          assert WriteThrows(cache0, k, mapCoins[k]);
          return true;
        }
        WriteHere(k, e);
        forall j
          ensures Written(cache0, mapCoins, rest.Keys - {k}, cacheCoins, j)
        {
          assert Written(cache0, mapCoins, rest.Keys, cache1, j);
        }
        rest := rest - {k};
      }
      forall k
        ensures if k in mapCoins then SameAt(cacheCoins, WriteEntry(cache0, k, mapCoins[k]), k)
                else SameAt(cacheCoins, cache0, k)
      {
        assert Written(cache0, mapCoins, rest.Keys, cacheCoins, k);
      }
      return false;
    }

    // The body of BatchWrite's loop, past the throw.
    method WriteHere(k: OutPoint, e: CacheEntry)
      requires cachedCoinsUsage == TotalUsage(cacheCoins)
      modifies this`cacheCoins, this`cachedCoinsUsage
      ensures cacheCoins == WriteEntry(old(cacheCoins), k, e)
      ensures cachedCoinsUsage == TotalUsage(cacheCoins)
    {
      if !e.isDirty {
        return;
      }
      if k !in cacheCoins {
        if !(e.isFresh && e.coin.Spent?) {
          SetHere(k, CacheEntry(e.coin, true, e.isFresh));
        }
      } else if cacheCoins[k].isFresh && e.coin.Spent? {
        EraseHere(k);
      } else {
        SetHere(k, CacheEntry(e.coin, true, cacheCoins[k].isFresh));
      }
    }

    // Pushes every change into the view below and empties this layer.  A layer whose own
    // best block is null also wipes the best block of the cache below it.
    method Flush()
      requires Valid()
      modifies this, if base == null then store else base
      ensures Valid() && cacheCoins == map[] && hashBlock == old(hashBlock)
      ensures forall k :: CoinAt(k) == BaseCoin(k) == old(CoinAt(k))
      ensures (if base == null then store.hashBlock else base.hashBlock) == hashBlock
      ensures BestBlock() == if hashBlock != NULL_HASH then hashBlock
                             else if base == null then NULL_HASH
                             else old(base.BaseBestBlock())
    {
      ghost var cache0 := cacheCoins;
      forall k
        ensures OkAt(if base == null then Lookup(store.coins, k) else base.CoinAt(k), cacheCoins, k)
      {
        assert OkAt(BaseCoin(k), cacheCoins, k);
      }
      if base == null {
        store.BatchWrite(cacheCoins, hashBlock);
      } else {
        var threw := base.BatchWrite(cacheCoins, hashBlock);
        assert base.BestBlock() == (if hashBlock != NULL_HASH then hashBlock else old(base.BaseBestBlock()));
      }
      forall k
        ensures BaseCoin(k) == old(CoinAt(k))
      {
        assert old(CoinAt(k)) == Show(old(BaseCoin(k)), cache0, k);
      }
      cacheCoins := map[];
      cachedCoinsUsage := 0;
    }

    ghost function Depth(): nat
      requires Linked()
      decreases below
    {
      if base == null then 0 else 1 + base.Depth()
    }

    // Flush of the layer d levels down.
    method FlushAt(d: nat)
      requires Valid() && d <= Depth()
      modifies this, below
      ensures Valid()
      ensures forall k :: CoinAt(k) == old(CoinAt(k))
      decreases d
    {
      if d == 0 {
        Flush();
      } else {
        base.FlushAt(d - 1);
        assert forall k :: BaseCoin(k) == old(BaseCoin(k));
      }
    }

    // Uncache in the layer d levels down.
    method UncacheAt(d: nat, k: OutPoint)
      requires Valid() && d <= Depth()
      modifies this, below
      ensures Valid()
      ensures forall k :: CoinAt(k) == old(CoinAt(k))
      decreases d
    {
      if d == 0 {
        Uncache(k);
      } else {
        base.UncacheAt(d - 1, k);
        assert forall k :: BaseCoin(k) == old(BaseCoin(k));
      }
    }

    // No output of the transaction would replace a coin unnoticed.
    ghost predicate MayAddAll(tx: Tx, check: bool)
      requires Linked()
      reads this, below
    {
      check || tx.coinBase || forall i :: 0 <= i < |tx.vout| ==> CoinAt(OutPoint(tx.hash, i)).Spent?
    }

    // AddCoins: with check, overwriting is detected; without it, only a coinbase may
    // overwrite, and the call may throw for another transaction that does.
    method AddCoins(tx: Tx, height: nat, check: bool) returns (threw: bool)
      requires Valid()
      modifies this, below - {store}
      ensures old(MayAddAll(tx, check)) ==> !threw && Valid()
      ensures !threw ==> Wired() && BestBlock() == old(BestBlock())
      ensures !threw ==> forall k :: CoinAt(k) == if CreatedBy(tx, |tx.vout|, k)
                                                  then Unspent(tx.vout[k.n], height, tx.coinBase)
                                                  else old(CoinAt(k))
    {
      for i := 0 to |tx.vout|
        invariant Wired() && BestBlock() == old(BestBlock()) && (old(MayAddAll(tx, check)) ==> Valid())
        invariant forall k :: CoinAt(k) == if CreatedBy(tx, i, k)
                                           then Unspent(tx.vout[k.n], height, tx.coinBase)
                                           else old(CoinAt(k))
      {
        var k := OutPoint(tx.hash, i);
        assert !CreatedBy(tx, i, k);
        var overwrite := tx.coinBase;
        if check {
          overwrite := HaveCoin(k);
        }
        threw := AddCoin(k, Unspent(tx.vout[i], height, tx.coinBase), overwrite);
        if threw {
          return;
        }
      }
      threw := false;
    }

    // Any run of reads, legal adds and spends on this cache, and of flushes and uncaches
    // anywhere in the stack, looks like the same run on a plain map.
    method Run(ops: seq<Op>, ghost plain: Store) returns (seen: seq<Coin>)
      requires Valid() && Represents(plain)
      requires LegalRun(plain, ops, Depth())
      modifies this, below
      ensures Valid() && Represents(ApplyAll(plain, ops))
      ensures seen == SeenAll(plain, ops)
    {
      seen := [];
      ghost var now := plain;
      for i := 0 to |ops|
        invariant Valid() && Represents(now)
        invariant LegalRun(now, ops[i..], Depth())
        invariant ApplyAll(now, ops[i..]) == ApplyAll(plain, ops)
        invariant seen + SeenAll(now, ops[i..]) == SeenAll(plain, ops)
      {
        assert ops[i..][0] == ops[i] && ops[i..][1..] == ops[i + 1..];
        var coin := Step(ops[i], now);
        seen := seen + [coin];
        now := Apply(now, ops[i]);
      }
    }

    method Step(op: Op, ghost plain: Store) returns (seen: Coin)
      requires Valid() && Represents(plain) && LegalOp(plain, op, Depth())
      modifies this, below
      ensures Valid() && Represents(Apply(plain, op))
      ensures seen == Seen(plain, op)
    {
      seen := Spent;
      match op {
        case Get(k) =>
          var found, coin := GetCoin(k);
          seen := if found then coin else Spent;
        case Add(k, coin, overwrite) =>
          var threw := AddCoin(k, coin, overwrite);
        case Spend(k) =>
          var ok, coin := SpendCoin(k, false);
          seen := if ok then coin else Spent;
        case FlushLayer(d) =>
          FlushAt(d);
        case UncacheIn(d, k) =>
          UncacheAt(d, k);
      }
    }

    // This cache shows exactly the coins of a plain map.
    ghost predicate Represents(plain: Store)
      requires Linked()
      reads this, below
    {
      forall k :: CoinAt(k) == Lookup(plain, k)
    }
  }

  predicate CreatedBy(tx: Tx, outputs: nat, k: OutPoint)
    requires outputs <= |tx.vout|
  {
    k.hash == tx.hash && k.n < outputs && !IsUnspendable(tx.vout[k.n].script)
  }

  // ---------- runs ----------

  datatype Op =
    | Get(k: OutPoint)
    | Add(k: OutPoint, coin: Coin, overwrite: bool)
    | Spend(k: OutPoint)
    | FlushLayer(d: nat)
    | UncacheIn(d: nat, k: OutPoint)

  // The same operation on a plain map: flushing and uncaching are invisible.
  function Apply(plain: Store, op: Op): Store {
    match op
    case Add(k, coin, _) => if coin.Spent? || IsUnspendable(coin.out.script) then plain else plain[k := coin]
    case Spend(k) => plain - {k}
    case _ => plain
  }

  // What the caller gets to see.
  function Seen(plain: Store, op: Op): Coin {
    match op
    case Get(k) => Lookup(plain, k)
    case Spend(k) => Lookup(plain, k)
    case _ => Spent
  }

  // Adding without the overwrite flag is legal only where no coin is visible.
  predicate LegalOp(plain: Store, op: Op, depth: nat) {
    match op
    case Add(k, coin, overwrite) => !coin.Spent? && (overwrite || Lookup(plain, k).Spent?)
    case FlushLayer(d) => d <= depth
    case UncacheIn(d, _) => d <= depth
    case _ => true
  }

  predicate LegalRun(plain: Store, ops: seq<Op>, depth: nat)
    decreases ops
  {
    ops == [] || (LegalOp(plain, ops[0], depth) && LegalRun(Apply(plain, ops[0]), ops[1..], depth))
  }

  function ApplyAll(plain: Store, ops: seq<Op>): Store
    decreases ops
  {
    if ops == [] then plain else ApplyAll(Apply(plain, ops[0]), ops[1..])
  }

  function SeenAll(plain: Store, ops: seq<Op>): seq<Coin>
    decreases ops
  {
    if ops == [] then [] else [Seen(plain, ops[0])] + SeenAll(Apply(plain, ops[0]), ops[1..])
  }
}
