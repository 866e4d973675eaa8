/** Replay protection: a map of nonces with a queue of the same nonces in order of
    arrival, cleaned by age and bounded by evicting the oldest. */
module NonceCache {

  const SECOND: int := 1_000_000_000
  const MAX_TIMESTAMP_SKEW := 300 * SECOND
  const MAX_NONCE_CACHE_SIZE: nat := 10000
  const NONCE_CACHE_TTL := 24 * 3600 * SECOND

  datatype Entry = Entry(nonce: string, stored: int)

  predicate OncePerNonce(entries: seq<Entry>) {
    forall i, j | 0 <= i < j < |entries| :: entries[i].nonce != entries[j].nonce
  }

  predicate Holds(entries: seq<Entry>, nonce: string) {
    exists i | 0 <= i < |entries| :: entries[i].nonce == nonce
  }

  predicate Expired(e: Entry, now: int) {
    now - e.stored > NONCE_CACHE_TTL
  }

  /** Drops expired entries from the front, up to the first that is not. */
  function CleanedUp(entries: seq<Entry>, now: int): (r: seq<Entry>)
    ensures |r| <= |entries| && r == entries[|entries| - |r|..]
  {
    if entries != [] && Expired(entries[0], now) then CleanedUp(entries[1..], now) else entries
  }

  /** Drops the oldest entries until there is room for one more. */
  function Evicted(entries: seq<Entry>): seq<Entry> {
    if |entries| >= MAX_NONCE_CACHE_SIZE then entries[|entries| + 1 - MAX_NONCE_CACHE_SIZE..] else entries
  }

  /** The entries after a check, and whether the nonce was new. */
  function Checked(entries: seq<Entry>, nonce: string, now: int): (seq<Entry>, bool) {
    if Holds(entries, nonce) then (entries, false)
    else (Evicted(CleanedUp(entries, now)) + [Entry(nonce, now)], true)
  }

  /** What a cache bounded by age alone would keep. */
  function Unexpired(entries: seq<Entry>, now: int): seq<Entry> {
    if entries == [] then []
    else (if Expired(entries[0], now) then [] else [entries[0]]) + Unexpired(entries[1..], now)
  }

  predicate InOrder(entries: seq<Entry>, now: int) {
    && (forall i, j | 0 <= i < j < |entries| :: entries[i].stored <= entries[j].stored)
    && (forall e | e in entries :: e.stored <= now)
  }

  /** With clock readings in order, looking at the front only removes exactly what
      a filter by age over the whole cache would. */
  lemma {:induction false} CleanupIsFilter(entries: seq<Entry>, now: int)
    requires InOrder(entries, now)
    ensures CleanedUp(entries, now) == Unexpired(entries, now)
  {
    if entries != [] {
      if Expired(entries[0], now) {
        CleanupIsFilter(entries[1..], now);
      } else {
        NothingExpired(entries, now);
      }
    }
  }

  lemma {:induction false} NothingExpired(entries: seq<Entry>, now: int)
    requires forall e | e in entries :: !Expired(e, now)
    ensures Unexpired(entries, now) == entries
  {
    if entries != [] {
      NothingExpired(entries[1..], now);
    }
  }

  /** A check keeps nonces distinct, the order of the clock and the bound on the size. */
  lemma CheckKeepsCache(entries: seq<Entry>, nonce: string, before: int, now: int)
    requires OncePerNonce(entries) && InOrder(entries, before) && before <= now && |entries| <= MAX_NONCE_CACHE_SIZE
    ensures var (after, _) := Checked(entries, nonce, now);
      OncePerNonce(after) && InOrder(after, now) && |after| <= MAX_NONCE_CACHE_SIZE
  {
    if !Holds(entries, nonce) {
      CheckedIsSuffix(entries, nonce, now);
      var after := Checked(entries, nonce, now).0;
      hide Checked;
      SuffixKeeps(entries, |entries| + 1 - |after|, before);
      AppendKeeps(entries[|entries| + 1 - |after|..], nonce, before, now);
    }
  }

  lemma SuffixKeeps(entries: seq<Entry>, k: nat, now: int)
    requires k <= |entries| && OncePerNonce(entries) && InOrder(entries, now)
    ensures OncePerNonce(entries[k..]) && InOrder(entries[k..], now)
    ensures forall nonce | Holds(entries[k..], nonce) :: Holds(entries, nonce)
  {
    forall nonce | Holds(entries[k..], nonce) ensures Holds(entries, nonce) {
      var i :| 0 <= i < |entries| - k && entries[k..][i].nonce == nonce;
      assert entries[k + i].nonce == nonce;
    }
  }

  lemma AppendKeeps(entries: seq<Entry>, nonce: string, before: int, now: int)
    requires OncePerNonce(entries) && InOrder(entries, before) && before <= now && !Holds(entries, nonce)
    ensures OncePerNonce(entries + [Entry(nonce, now)]) && InOrder(entries + [Entry(nonce, now)], now)
  {
    assert forall i | 0 <= i < |entries| :: entries[i] in entries;
  }

  /** A check that stores drops a number of the oldest entries and appends the new. */
  lemma CheckedIsSuffix(entries: seq<Entry>, nonce: string, now: int)
    requires !Holds(entries, nonce)
    ensures var (after, _) := Checked(entries, nonce, now);
      && 1 <= |after| <= |entries| + 1 && |after| <= MAX_NONCE_CACHE_SIZE
      && after == entries[|entries| + 1 - |after|..] + [Entry(nonce, now)]
  {
    var cleaned := CleanedUp(entries, now);
    var kept := Evicted(cleaned);
    assert kept == entries[|entries| - |kept|..];
  }

  class NonceCache {
    var cache: map<string, int>
    var queue: seq<string>

    /** The queue has no duplicates, holds exactly the map's keys and is bounded. */
    ghost predicate Valid()
      reads this
    {
      Consistent(cache, queue) && |queue| <= MAX_NONCE_CACHE_SIZE
    }

    ghost function Entries(): seq<Entry>
      reads this
      requires Valid()
    {
      EntriesOf(cache, queue)
    }

    constructor ()
      ensures Valid() && Entries() == []
    {
      cache, queue := map[], [];
    }

    method CheckAndStoreNonce(nonce: string, now: int) returns (ok: bool)
      requires Valid()
      modifies this
      ensures Valid() && (Entries(), ok) == Checked(old(Entries()), nonce, now)
    {
      HeldIsCached(cache, queue, nonce);
      if nonce in cache {
        return false;
      }
      hide Consistent, EntriesOf, Evicted, CleanedUp, Holds;
      Cleanup(now);
      Evict();
      Appended(cache, queue, nonce, now);
      cache := cache[nonce := now];
      queue := queue + [nonce];
      return true;
    }

    method Evict()
      requires Valid()
      modifies this
      ensures Valid() && Entries() == Evicted(old(Entries())) && |queue| < MAX_NONCE_CACHE_SIZE
      ensures forall nonce | nonce in cache :: nonce in old(cache)
    {
      hide Consistent, EntriesOf;
      CacheSize(cache, queue);
      while |cache| >= MAX_NONCE_CACHE_SIZE
        invariant Valid() && |cache| == |queue|
        invariant Evicted(Entries()) == Evicted(old(Entries()))
        invariant forall nonce | nonce in cache :: nonce in old(cache)
        decreases |queue|
      {
        var oldest := queue[0];
        FrontDropped(cache, queue);
        EvictOne(Entries());
        cache := cache - {oldest};
        queue := queue[1..];
        CacheSize(cache, queue);
      }
    }

    method Cleanup(now: int)
      requires Valid()
      modifies this
      ensures Valid() && Entries() == CleanedUp(old(Entries()), now)
      ensures forall nonce | nonce in cache :: nonce in old(cache)
    {
      while |queue| > 0
        invariant Valid()
        invariant CleanedUp(Entries(), now) == CleanedUp(old(Entries()), now)
        invariant forall nonce | nonce in cache :: nonce in old(cache)
        decreases |queue|
      {
        var oldest := queue[0];
        if oldest in cache {
          if now - cache[oldest] > NONCE_CACHE_TTL {
            FrontDropped(cache, queue);
            cache := cache - {oldest};
            queue := queue[1..];
            continue;
          }
        }
        break;
      }
    }

    method Size() returns (n: nat)
      requires Valid()
      ensures n == |Entries()| <= MAX_NONCE_CACHE_SIZE
    {
      CacheSize(cache, queue);
      n := |cache|;
    }

    method Clear()
      modifies this
      ensures Valid() && Entries() == []
    {
      cache, queue := map[], [];
    }

    method HasNonce(nonce: string) returns (b: bool)
      requires Valid()
      ensures b <==> Holds(Entries(), nonce)
    {
      HeldIsCached(cache, queue, nonce);
      b := nonce in cache;
    }
  }

  ghost predicate Consistent(cache: map<string, int>, queue: seq<string>) {
    && (forall i, j | 0 <= i < j < |queue| :: queue[i] != queue[j])
    && (forall nonce :: nonce in cache <==> nonce in queue)
  }

  ghost function EntriesOf(cache: map<string, int>, queue: seq<string>): (r: seq<Entry>)
    requires Consistent(cache, queue)
    ensures |r| == |queue|
  {
    seq(|queue|, i requires 0 <= i < |queue| => Entry(queue[i], cache[queue[i]]))
  }

  lemma HeldIsCached(cache: map<string, int>, queue: seq<string>, nonce: string)
    requires Consistent(cache, queue)
    ensures Holds(EntriesOf(cache, queue), nonce) <==> nonce in cache
  {
    var entries := EntriesOf(cache, queue);
    assert forall i | 0 <= i < |queue| :: entries[i].nonce == queue[i];
  }

  lemma EvictOne(entries: seq<Entry>)
    requires |entries| >= MAX_NONCE_CACHE_SIZE
    ensures Evicted(entries[1..]) == Evicted(entries)
  {
  }

  lemma {:induction false} CacheSize(cache: map<string, int>, queue: seq<string>)
    requires Consistent(cache, queue)
    ensures |cache| == |queue|
  {
    if queue == [] {
      assert cache == map[];
    } else {
      FrontDropped(cache, queue);
      CacheSize(cache - {queue[0]}, queue[1..]);
      assert cache.Keys == (cache - {queue[0]}).Keys + {queue[0]};
      assert |cache.Keys| == |(cache - {queue[0]}).Keys| + 1;
    }
  }

  lemma FrontDropped(cache: map<string, int>, queue: seq<string>)
    requires queue != [] && Consistent(cache, queue)
    ensures Consistent(cache - {queue[0]}, queue[1..])
    ensures EntriesOf(cache - {queue[0]}, queue[1..]) == EntriesOf(cache, queue)[1..]
  {
    assert forall nonce :: nonce in queue <==> nonce == queue[0] || nonce in queue[1..];
  }

  lemma Appended(cache: map<string, int>, queue: seq<string>, nonce: string, now: int)
    requires Consistent(cache, queue) && nonce !in cache
    ensures Consistent(cache[nonce := now], queue + [nonce])
    ensures EntriesOf(cache[nonce := now], queue + [nonce]) == EntriesOf(cache, queue) + [Entry(nonce, now)]
  {
  }
}
