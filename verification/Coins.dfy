/**
 * The entries of the write-back UTXO cache of src/coins.cpp, as values.
 *
 * A cache layer keeps a map of entries flagged DIRTY and FRESH over some view below it.
 * Everything a layer does is per outpoint, so a view is described by the coin it shows at
 * one outpoint (Spent where there is none).  `EntryOk` is the invariant between an entry
 * and the coin below it that makes the FRESH shortcut (erase the entry instead of writing
 * a tombstone) sound.
 */
module Coins {

  datatype OutPoint = OutPoint(hash: nat, n: nat)
  datatype TxOut = TxOut(value: int, script: seq<nat>)
  datatype Coin = Spent | Unspent(out: TxOut, height: nat, coinBase: bool)
  datatype CacheEntry = CacheEntry(coin: Coin, isDirty: bool, isFresh: bool)
  datatype Tx = Tx(hash: nat, coinBase: bool, vout: seq<TxOut>)

  type CoinsMap = map<OutPoint, CacheEntry>
  type Store = map<OutPoint, Coin>

  // Block hashes; zero is the null hash.
  type Hash = nat
  const NULL_HASH: Hash := 0

  const OP_RETURN: nat := 0x6a
  const MAX_SCRIPT_SIZE := 10000
  const DIRECT_SCRIPT_SIZE := 28

  predicate IsUnspendable(script: seq<nat>) {
    (|script| > 0 && script[0] == OP_RETURN) || |script| > MAX_SCRIPT_SIZE
  }

  // Heap bytes behind a coin: scripts up to 28 bytes are stored in place.
  function Usage(coin: Coin): nat {
    if coin.Spent? || |coin.out.script| <= DIRECT_SCRIPT_SIZE then 0 else |coin.out.script|
  }

  // ---------- one layer over the view below it, at one outpoint ----------

  function Lookup(store: Store, k: OutPoint): Coin {
    if k in store then store[k] else Spent
  }

  function Show(below: Coin, cache: CoinsMap, k: OutPoint): Coin {
    if k in cache then cache[k].coin else below
  }

  predicate EntryOk(below: Coin, e: CacheEntry) {
    && (!e.isDirty ==> e.coin == below)
    && (e.isFresh ==> below.Spent?)
  }

  predicate OkAt(below: Coin, cache: CoinsMap, k: OutPoint) {
    k in cache ==> EntryOk(below, cache[k])
  }

  // ---------- specification of the operations on one layer's entries ----------

  // CCoinsViewCache::FetchCoin
  function FetchEntry(below: Coin, cache: CoinsMap, k: OutPoint): CoinsMap {
    if k in cache || below.Spent? then cache else cache[k := CacheEntry(below, false, false)]
  }

  // CCoinsViewCache::AddCoin throws exactly here.
  predicate AddThrows(cache: CoinsMap, k: OutPoint, overwrite: bool) {
    !overwrite && k in cache && !cache[k].coin.Spent?
  }

  // CCoinsViewCache::AddCoin
  function AddEntry(cache: CoinsMap, k: OutPoint, coin: Coin, overwrite: bool): CoinsMap {
    var was := if k in cache then cache[k] else CacheEntry(Spent, false, false);
    cache[k := CacheEntry(coin, true, was.isFresh || (!overwrite && !was.isDirty))]
  }

  // CCoinsViewCache::SpendCoin, after the fetch
  function SpendEntry(cache: CoinsMap, k: OutPoint): CoinsMap {
    if k !in cache then cache
    else if cache[k].isFresh then cache - {k}
    else cache[k := CacheEntry(Spent, true, false)]
  }

  // CCoinsViewCache::Uncache
  function UncacheEntry(cache: CoinsMap, k: OutPoint): CoinsMap {
    if k in cache && !cache[k].isDirty && !cache[k].isFresh then cache - {k} else cache
  }

  // One iteration of CCoinsViewCache::BatchWrite throws exactly here.
  predicate WriteThrows(cache: CoinsMap, k: OutPoint, e: CacheEntry) {
    e.isDirty && e.isFresh && k in cache && !cache[k].coin.Spent?
  }

  // One iteration of CCoinsViewCache::BatchWrite
  function WriteEntry(cache: CoinsMap, k: OutPoint, e: CacheEntry): CoinsMap {
    if !e.isDirty then cache
    else if k !in cache then
      if e.isFresh && e.coin.Spent? then cache else cache[k := CacheEntry(e.coin, true, e.isFresh)]
    else if cache[k].isFresh && e.coin.Spent? then cache - {k}
    else cache[k := CacheEntry(e.coin, true, cache[k].isFresh)]
  }

  // One iteration of the store's BatchWrite
  function StoreEntry(store: Store, k: OutPoint, e: CacheEntry): Store {
    if !e.isDirty then store
    else if e.coin.Spent? then store - {k}
    else store[k := e.coin]
  }

  // Marking FRESH is right exactly when the caller kept the promise of AddCoin: the layer
  // invariant survives iff overwriting was allowed, or the outpoint was cached, or there
  // is no coin below.
  lemma AddKeepsLayerIff(below: Coin, cache: CoinsMap, k: OutPoint, coin: Coin, overwrite: bool)
    requires OkAt(below, cache, k)
    requires !coin.Spent? && !AddThrows(cache, k, overwrite)
    ensures OkAt(below, AddEntry(cache, k, coin, overwrite), k)
            <==> overwrite || k in cache || below.Spent?
  {
  }

  // What goes wrong otherwise: once the new coin is spent the coin below shows through
  // again, and flushing it into a layer that has fetched that coin throws.
  lemma MisusedAddResurrects(below: Coin, cache: CoinsMap, k: OutPoint, coin: Coin)
    requires !coin.Spent? && k !in cache && !below.Spent?
    ensures Show(below, SpendEntry(AddEntry(cache, k, coin, false), k), k) == below
    ensures WriteThrows(FetchEntry(below, map[], k), k, AddEntry(cache, k, coin, false)[k])
  {
  }

  // Writing a child entry into the parent layer: no throw, the parent's own invariant
  // survives, and the parent now shows the child's coin.
  lemma WriteEntryCorrect(grand: Coin, parent: CoinsMap, k: OutPoint, e: CacheEntry)
    requires OkAt(grand, parent, k) && EntryOk(Show(grand, parent, k), e)
    ensures !WriteThrows(parent, k, e)
    ensures OkAt(grand, WriteEntry(parent, k, e), k)
    ensures Show(grand, WriteEntry(parent, k, e), k) == e.coin
  {
  }

  // ---------- memory accounting ----------

  ghost function TotalUsage(cache: CoinsMap): nat
    decreases |cache|
  {
    if cache == map[] then 0
    else var k :| k in cache; Usage(cache[k].coin) + TotalUsage(cache - {k})
  }

  lemma {:induction false} TotalUsageRemove(cache: CoinsMap, k: OutPoint)
    requires k in cache
    ensures TotalUsage(cache) == Usage(cache[k].coin) + TotalUsage(cache - {k})
    decreases |cache|
  {
    var j :| j in cache && TotalUsage(cache) == Usage(cache[j].coin) + TotalUsage(cache - {j});
    if j != k {
      TotalUsageRemove(cache - {j}, k);
      TotalUsageRemove(cache - {k}, j);
      assert cache - {j} - {k} == cache - {k} - {j};
    }
  }

  lemma TotalUsagePut(cache: CoinsMap, k: OutPoint, e: CacheEntry)
    ensures TotalUsage(cache[k := e])
            == TotalUsage(cache) + Usage(e.coin) - (if k in cache then Usage(cache[k].coin) else 0)
  {
    TotalUsageRemove(cache[k := e], k);
    assert cache[k := e] - {k} == cache - {k};
    if k in cache {
      TotalUsageRemove(cache, k);
    } else {
      assert cache - {k} == cache;
    }
  }
}
