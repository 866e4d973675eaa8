/** The store of responses by idempotency key, and the middleware that replays them. */
module Idempotency {
  import opened Sets
  import opened Wrappers

  const DEFAULT_TTL: int := 24 * 3600 * 1_000_000_000
  const DEFAULT_MAX_KEYS: nat := 10000

  datatype Response = Response(status: int, headers: map<string, seq<string>>, body: seq<char>)

  datatype Entry = Entry(hash: string, response: Response, expiresAt: int)

  type Table = map<string, Entry>

  predicate Live(e: Entry, now: int) {
    now <= e.expiresAt
  }

  function LiveAt(t: Table, now: int): Table {
    map k | k in t && Live(t[k], now) :: t[k]
  }

  datatype Verdict = Stored | Conflict | Full

  /** The table after a Get, and what it answers. */
  function Got(t: Table, key: string, now: int): (Table, Option<Entry>) {
    if key !in t then (t, None)
    else if !Live(t[key], now) then (t - {key}, None)
    else (t, Some(t[key]))
  }

  /** The table after a Store; the clock is read once for the cleanup and once for
      the expiry of the new entry. */
  function Put(t: Table, maxKeys: nat, ttl: int, key: string, hash: string, response: Response, now: int, later: int): (Table, Verdict) {
    var live := LiveAt(t, now);
    if key in live then (live, if live[key].hash != hash then Conflict else Stored)
    else if |live| >= maxKeys then (live, Full)
    else (live[key := Entry(hash, response, later + ttl)], Stored)
  }

  class IdempotencyStore {
    var entries: Table
    const ttl: int
    const maxKeys: nat

    constructor (ttl: int, maxKeys: int)
      ensures entries == map[]
      ensures this.ttl == (if ttl <= 0 then 86_400_000_000_000 else ttl) && this.ttl > 0
      ensures this.maxKeys == (if maxKeys <= 0 then 10_000 else maxKeys) && this.maxKeys > 0
    {
      this.ttl := if ttl <= 0 then DEFAULT_TTL else ttl;
      this.maxKeys := if maxKeys <= 0 then DEFAULT_MAX_KEYS else maxKeys;
      entries := map[];
    }

    method Store(key: string, hash: string, response: Response, now: int, later: int) returns (verdict: Verdict)
      modifies this
      ensures (entries, verdict) == Put(old(entries), maxKeys, ttl, key, hash, response, now, later)
    {
      Cleanup(now);
      if key in entries {
        if entries[key].hash != hash {
          return Conflict;
        }
        return Stored;
      }
      if |entries| >= maxKeys {
        return Full;
      }
      entries := entries[key := Entry(hash, response, later + ttl)];
      return Stored;
    }

    method Get(key: string, now: int) returns (found: Option<Entry>)
      modifies this
      ensures (entries, found) == Got(old(entries), key, now)
    {
      if key !in entries {
        return None;
      }
      if now > entries[key].expiresAt {
        entries := entries - {key};
        return None;
      }
      return Some(entries[key]);
    }

    method Cleanup(now: int)
      modifies this
      ensures entries == LiveAt(old(entries), now)
    {
      var keys := entries.Keys;
      while keys != {}
        invariant keys <= entries.Keys <= old(entries).Keys
        invariant forall k | k in entries :: entries[k] == old(entries)[k]
        invariant forall k | k in old(entries) && k !in keys :: k in entries <==> Live(old(entries)[k], now)
        decreases |keys|
      {
        var key: string :| key in keys;
        if now > entries[key].expiresAt {
          entries := entries - {key};
        }
        keys := keys - {key};
      }
    }
  }

  // The ideal table never deletes and only ignores what has expired.

  function IdealGet(ideal: Table, key: string, now: int): Option<Entry> {
    if key in ideal && Live(ideal[key], now) then Some(ideal[key]) else None
  }

  function IdealPut(ideal: Table, maxKeys: nat, ttl: int, key: string, hash: string, response: Response, now: int, later: int)
    : (Table, Verdict)
  {
    match IdealGet(ideal, key, now)
    case Some(e) => (ideal, if e.hash != hash then Conflict else Stored)
    case None =>
      if |LiveAt(ideal, now)| >= maxKeys then (ideal, Full)
      else (ideal[key := Entry(hash, response, later + ttl)], Stored)
  }

  /** The store holds part of the ideal table, with everything live at the clock. */
  predicate Refines(t: Table, ideal: Table, maxKeys: nat, clock: int) {
    && (forall k | k in t :: k in ideal && t[k] == ideal[k])
    && (forall k | k in ideal && Live(ideal[k], clock) :: k in t)
    && |t| <= maxKeys
  }

  datatype Op =
    | GetOp(key: string, now: int)
    | PutOp(key: string, hash: string, response: Response, now: int, later: int)
    | CleanupOp(now: int)

  datatype Answer = Found(entry: Option<Entry>) | Done(verdict: Verdict) | Cleaned

  function Apply(t: Table, maxKeys: nat, ttl: int, op: Op): (Table, Answer) {
    match op
    case GetOp(key, now) => var (t', e) := Got(t, key, now); (t', Found(e))
    case PutOp(key, hash, response, now, later) =>
      var (t', v) := Put(t, maxKeys, ttl, key, hash, response, now, later); (t', Done(v))
    case CleanupOp(now) => (LiveAt(t, now), Cleaned)
  }

  function IdealApply(ideal: Table, maxKeys: nat, ttl: int, op: Op): (Table, Answer) {
    match op
    case GetOp(key, now) => (ideal, Found(IdealGet(ideal, key, now)))
    case PutOp(key, hash, response, now, later) =>
      var (t', v) := IdealPut(ideal, maxKeys, ttl, key, hash, response, now, later); (t', Done(v))
    case CleanupOp(now) => (ideal, Cleaned)
  }

  lemma LiveTablesAgree(t: Table, ideal: Table, maxKeys: nat, clock: int, now: int)
    requires Refines(t, ideal, maxKeys, clock) && clock <= now
    ensures LiveAt(t, now) == LiveAt(ideal, now)
    ensures |LiveAt(t, now)| <= |t|
  {
    SubsetCardinality(LiveAt(t, now).Keys, t.Keys);
    assert |LiveAt(t, now).Keys| == |LiveAt(t, now)| && |t.Keys| == |t|;
  }

  /** One operation answers like the ideal table and keeps the refinement. */
  lemma ApplyRefines(t: Table, ideal: Table, maxKeys: nat, ttl: int, clock: int, op: Op)
    requires Refines(t, ideal, maxKeys, clock) && clock <= op.now
    ensures var (t', a), (i', b) := Apply(t, maxKeys, ttl, op), IdealApply(ideal, maxKeys, ttl, op);
      a == b && Refines(t', i', maxKeys, op.now)
  {
    hide Refines, Got, Put, IdealPut, IdealGet;
    match op
    case GetOp(key, now) => GetRefines(t, ideal, maxKeys, clock, key, now);
    case PutOp(key, hash, response, now, later) =>
      PutRefines(t, ideal, maxKeys, ttl, clock, key, hash, response, now, later);
    case CleanupOp(now) => CleanupRefines(t, ideal, maxKeys, clock, now);
  }

  lemma CleanupRefines(t: Table, ideal: Table, maxKeys: nat, clock: int, now: int)
    requires Refines(t, ideal, maxKeys, clock) && clock <= now
    ensures Refines(LiveAt(t, now), ideal, maxKeys, now)
  {
    LiveTablesAgree(t, ideal, maxKeys, clock, now);
  }

  lemma GetRefines(t: Table, ideal: Table, maxKeys: nat, clock: int, key: string, now: int)
    requires Refines(t, ideal, maxKeys, clock) && clock <= now
    ensures Got(t, key, now).1 == IdealGet(ideal, key, now)
    ensures Refines(Got(t, key, now).0, ideal, maxKeys, now)
  {
    SubsetCardinality((t - {key}).Keys, t.Keys);
    assert |(t - {key}).Keys| == |t - {key}| && |t.Keys| == |t|;
  }

  lemma PutRefines(t: Table, ideal: Table, maxKeys: nat, ttl: int, clock: int,
                   key: string, hash: string, response: Response, now: int, later: int)
    requires Refines(t, ideal, maxKeys, clock) && clock <= now
    ensures var (t', v), (i', w) := Put(t, maxKeys, ttl, key, hash, response, now, later),
                                    IdealPut(ideal, maxKeys, ttl, key, hash, response, now, later);
      v == w && Refines(t', i', maxKeys, now)
  {
    LiveTablesAgree(t, ideal, maxKeys, clock, now);
    CleanupRefines(t, ideal, maxKeys, clock, now);
    var live := LiveAt(t, now);
    assert key in live <==> IdealGet(ideal, key, now).Some?;
    if key !in live && |live| < maxKeys {
      StoredRefines(live, ideal, maxKeys, now, key, Entry(hash, response, later + ttl));
    }
  }

  lemma StoredRefines(t: Table, ideal: Table, maxKeys: nat, clock: int, key: string, e: Entry)
    requires Refines(t, ideal, maxKeys, clock) && |t| < maxKeys && key !in t
    ensures Refines(t[key := e], ideal[key := e], maxKeys, clock)
  {
  }

  function Answers(t: Table, maxKeys: nat, ttl: int, ops: seq<Op>): seq<Answer>
    decreases |ops|
  {
    if ops == [] then []
    else
      var (t', a) := Apply(t, maxKeys, ttl, ops[0]);
      [a] + Answers(t', maxKeys, ttl, ops[1..])
  }

  function IdealAnswers(ideal: Table, maxKeys: nat, ttl: int, ops: seq<Op>): seq<Answer>
    decreases |ops|
  {
    if ops == [] then []
    else
      var (t', a) := IdealApply(ideal, maxKeys, ttl, ops[0]);
      [a] + IdealAnswers(t', maxKeys, ttl, ops[1..])
  }

  predicate OpsInOrder(clock: int, ops: seq<Op>) {
    (forall i | 0 <= i < |ops| :: clock <= ops[i].now) &&
    forall i, j | 0 <= i < j < |ops| :: ops[i].now <= ops[j].now
  }

  /** Over every run with a clock that does not go back, deleting expired entries
      early, late or never makes no observable difference. */
  lemma {:induction false} RunRefines(t: Table, ideal: Table, maxKeys: nat, ttl: int, clock: int, ops: seq<Op>)
    requires Refines(t, ideal, maxKeys, clock) && OpsInOrder(clock, ops)
    ensures Answers(t, maxKeys, ttl, ops) == IdealAnswers(ideal, maxKeys, ttl, ops)
    decreases |ops|
  {
    if ops != [] {
      ApplyRefines(t, ideal, maxKeys, ttl, clock, ops[0]);
      hide Refines, Apply, IdealApply;
      RunRefines(Apply(t, maxKeys, ttl, ops[0]).0, IdealApply(ideal, maxKeys, ttl, ops[0]).0, maxKeys, ttl, ops[0].now, ops[1..]);
    }
  }

  // The middleware.

  /** A request with the response its handler would give, and the clock readings of
      the Get and the Store. `key` is trimmed; `hash` is of method, path and body. */
  datatype Request = Request(
    mutating: bool, key: string, bodyReadable: bool, hash: string, response: Response,
    getNow: int, putNow: int, putLater: int)

  datatype Reply = Handled(response: Response) | KeyConflict

  /** What one request does: the table, the reply, whether the handler ran, and
      whether its response was kept. */
  datatype Effect = Effect(table: Table, reply: Reply, ran: bool, kept: bool)

  predicate Keyed(r: Request) {
    r.mutating && r.key != ""
  }

  function Handle(t: Table, maxKeys: nat, ttl: int, r: Request): Effect {
    if !Keyed(r) then Effect(t, Handled(r.response), true, false)
    else if !r.bodyReadable then Effect(t, KeyConflict, false, false)
    else
      match Got(t, r.key, r.getNow)
      case (t', Some(e)) => Effect(t', if e.hash != r.hash then KeyConflict else Handled(e.response), false, false)
      case (t', None) =>
        var (t'', v) := Put(t', maxKeys, ttl, r.key, r.hash, r.response, r.putNow, r.putLater);
        Effect(t'', if v.Conflict? then KeyConflict else Handled(r.response), true, v.Stored?)
  }

  method ServeHTTP(store: IdempotencyStore, r: Request) returns (reply: Reply, ran: bool, ghost kept: bool)
    modifies store
    ensures Effect(store.entries, reply, ran, kept) == Handle(old(store.entries), store.maxKeys, store.ttl, r)
  {
    if !r.mutating { return Handled(r.response), true, false; }
    if r.key == "" { return Handled(r.response), true, false; }
    if !r.bodyReadable { return KeyConflict, false, false; }
    var found := store.Get(r.key, r.getNow);
    if found.Some? {
      if found.value.hash != r.hash {
        return KeyConflict, false, false;
      }
      return Handled(found.value.response), false, false;
    }
    var verdict := store.Store(r.key, r.hash, r.response, r.putNow, r.putLater);
    if verdict.Conflict? {
      return KeyConflict, true, false;
    }
    return Handled(r.response), true, verdict.Stored?;
  }

  function TableAt(maxKeys: nat, ttl: int, requests: seq<Request>, k: nat): Table
    requires k <= |requests|
  {
    if k == 0 then map[] else Handle(TableAt(maxKeys, ttl, requests, k - 1), maxKeys, ttl, requests[k - 1]).table
  }

  function EffectOf(maxKeys: nat, ttl: int, requests: seq<Request>, k: nat): Effect
    requires k < |requests|
  {
    Handle(TableAt(maxKeys, ttl, requests, k), maxKeys, ttl, requests[k])
  }

  predicate RequestClock(requests: seq<Request>) {
    && (forall i | 0 <= i < |requests| :: requests[i].getNow <= requests[i].putNow <= requests[i].putLater)
    && (forall i, j | 0 <= i < j < |requests| :: requests[i].putLater <= requests[j].getNow)
  }

  lemma HandleKeeps(t: Table, maxKeys: nat, ttl: int, r: Request, key: string)
    requires key in t && r.getNow <= r.putNow <= t[key].expiresAt
    ensures var after := Handle(t, maxKeys, ttl, r).table; key in after && after[key] == t[key]
  {
  }

  lemma KeptIsStored(t: Table, maxKeys: nat, ttl: int, r: Request)
    requires r.getNow <= r.putNow && Handle(t, maxKeys, ttl, r).kept
    ensures var after := Handle(t, maxKeys, ttl, r).table;
      r.key in after && after[r.key] == Entry(r.hash, r.response, r.putLater + ttl)
  {
    assert r.key !in LiveAt(Got(t, r.key, r.getNow).0, r.putNow);
  }

  /** A kept response stays in the table as long as the clock is within its time. */
  lemma {:induction false} KeptStays(maxKeys: nat, ttl: int, requests: seq<Request>, i: nat, k: nat)
    requires RequestClock(requests) && i < k <= |requests|
    requires EffectOf(maxKeys, ttl, requests, i).kept
    requires forall j | i < j < k :: requests[j].putNow <= requests[i].putLater + ttl
    ensures var t, r := TableAt(maxKeys, ttl, requests, k), requests[i];
      r.key in t && t[r.key] == Entry(r.hash, r.response, r.putLater + ttl)
    decreases k
  {
    hide Handle;
    if k == i + 1 {
      KeptIsStored(TableAt(maxKeys, ttl, requests, i), maxKeys, ttl, requests[i]);
    } else {
      KeptStays(maxKeys, ttl, requests, i, k - 1);
      HandleKeeps(TableAt(maxKeys, ttl, requests, k - 1), maxKeys, ttl, requests[k - 1], requests[i].key);
    }
  }

  /** Sequential requests with one key run the handler once per time to live, if its
      response was kept (the store was not full): a later one with the same hash gets
      the same reply, one with another hash gets a conflict, and neither runs it. */
  lemma AtMostOnce(maxKeys: nat, ttl: int, requests: seq<Request>, i: nat, j: nat)
    requires RequestClock(requests) && i < j < |requests|
    requires EffectOf(maxKeys, ttl, requests, i).kept
    requires Keyed(requests[j]) && requests[j].bodyReadable && requests[j].key == requests[i].key
    requires requests[j].getNow <= requests[i].putLater + ttl
    ensures var first, later := EffectOf(maxKeys, ttl, requests, i), EffectOf(maxKeys, ttl, requests, j);
      && first.ran && !later.ran
      && later.reply == if requests[j].hash == requests[i].hash then first.reply else KeyConflict
  {
    assert forall k | i < k < j :: requests[k].putNow <= requests[k].putLater <= requests[j].getNow;
    KeptStays(maxKeys, ttl, requests, i, j);
    hide TableAt;
  }

  /** The handler's response is kept unless the store is full of live entries. */
  lemma KeptUnlessFull(t: Table, maxKeys: nat, ttl: int, r: Request)
    requires Keyed(r) && r.getNow <= r.putNow && Handle(t, maxKeys, ttl, r).ran
    ensures Handle(t, maxKeys, ttl, r).reply == Handled(r.response)
    ensures Handle(t, maxKeys, ttl, r).kept <==> |LiveAt(t, r.putNow)| < maxKeys
  {
    var t' := Got(t, r.key, r.getNow).0;
    assert LiveAt(t', r.putNow) == LiveAt(t, r.putNow);
  }

  // What every request of a run gets.

  /** The request is looked up in the store: it may change something, has a key and can
      be read. */
  predicate Consults(r: Request) {
    r.mutating && r.key != "" && r.bodyReadable
  }

  /** The i-th request is one whose response is kept under the key at the time. */
  predicate Standing(maxKeys: nat, ttl: int, requests: seq<Request>, k: nat, i: nat, now: int)
    requires k <= |requests|
  {
    i < k && EffectOf(maxKeys, ttl, requests, i).kept && now <= requests[i].putLater + ttl
  }

  ghost predicate Answered(maxKeys: nat, ttl: int, requests: seq<Request>, k: nat)
    requires k < |requests|
  {
    exists i: nat :: Standing(maxKeys, ttl, requests, k, i, requests[k].getNow) && requests[i].key == requests[k].key
  }

  /** The keys with a kept response at the time. */
  ghost function StandingKeys(maxKeys: nat, ttl: int, requests: seq<Request>, k: nat, now: int): set<string>
    requires k <= |requests|
  {
    set i: nat | i < k && Standing(maxKeys, ttl, requests, k, i, now) :: requests[i].key
  }

  /** The entry is what the i-th request left. */
  predicate LeftBy(e: Entry, ttl: int, r: Request) {
    e == Entry(r.hash, r.response, r.putLater + ttl)
  }

  /** Everything in the table was kept by a request under that key. */
  ghost predicate FromKept(t: Table, maxKeys: nat, ttl: int, requests: seq<Request>, k: nat, key: string)
    requires k <= |requests|
  {
    key in t ==>
      exists i: nat | i < k ::
        EffectOf(maxKeys, ttl, requests, i).kept && requests[i].key == key && LeftBy(t[key], ttl, requests[i])
  }

  /** A request puts nothing in the table but its own response, and that only if it is kept. */
  lemma HandleAdds(t: Table, maxKeys: nat, ttl: int, r: Request, key: string)
    ensures var e := Handle(t, maxKeys, ttl, r);
            key in e.table ==> (key in t && e.table[key] == t[key]) || (e.kept && key == r.key && LeftBy(e.table[key], ttl, r))
  {
  }

  lemma {:induction false} TableIsKept(maxKeys: nat, ttl: int, requests: seq<Request>, k: nat, key: string)
    requires k <= |requests|
    ensures FromKept(TableAt(maxKeys, ttl, requests, k), maxKeys, ttl, requests, k, key)
  {
    if k > 0 {
      TableIsKept(maxKeys, ttl, requests, k - 1, key);
      HandleAdds(TableAt(maxKeys, ttl, requests, k - 1), maxKeys, ttl, requests[k - 1], key);
      hide Handle;
    }
  }

  /** The entries live at the time of a request are those of the standing responses. */
  lemma LiveIsStanding(maxKeys: nat, ttl: int, requests: seq<Request>, k: nat, now: int, key: string)
    requires RequestClock(requests) && k < |requests| && requests[k].getNow <= now
    ensures var t := TableAt(maxKeys, ttl, requests, k);
      && (key in LiveAt(t, now) <==> exists i: nat :: Standing(maxKeys, ttl, requests, k, i, now) && requests[i].key == key)
      && forall i: nat :: Standing(maxKeys, ttl, requests, k, i, now) && requests[i].key == key ==>
           key in t && LeftBy(t[key], ttl, requests[i])
  {
    TableIsKept(maxKeys, ttl, requests, k, key);
    var t := TableAt(maxKeys, ttl, requests, k);
    hide TableAt, EffectOf;
    forall i: nat | Standing(maxKeys, ttl, requests, k, i, now) && requests[i].key == key
      ensures key in t && LeftBy(t[key], ttl, requests[i])
    {
      assert forall j | i < j < k :: requests[j].putNow <= requests[j].putLater <= requests[k].getNow;
      KeptStays(maxKeys, ttl, requests, i, k);
    }
    if key in LiveAt(t, now) {
      var i: nat :| i < k && EffectOf(maxKeys, ttl, requests, i).kept && requests[i].key == key && LeftBy(t[key], ttl, requests[i]);
      assert Standing(maxKeys, ttl, requests, k, i, now);
    }
  }

  /** A request that reads, or has no key, runs its handler and leaves the table; one with
      a key that cannot be read is refused and leaves it too. */
  lemma PassedThrough(maxKeys: nat, ttl: int, t: Table, r: Request)
    requires !Consults(r)
    ensures Handle(t, maxKeys, ttl, r) ==
            if r.mutating && r.key != "" then Effect(t, KeyConflict, false, false)
            else Effect(t, Handled(r.response), true, false)
  {
  }

  /** Every other request is answered from the standing response under its key, if there is
      one: with that response if the hashes agree and with a conflict if not. If there is
      none its handler runs, and its response is kept unless the keys are too many. */
  lemma RunExactly(maxKeys: nat, ttl: int, requests: seq<Request>, k: nat)
    requires RequestClock(requests) && k < |requests| && Consults(requests[k])
    ensures var r, e := requests[k], EffectOf(maxKeys, ttl, requests, k);
      && e.ran == !Answered(maxKeys, ttl, requests, k)
      && (e.ran ==> e.reply == Handled(r.response) &&
                    (e.kept <==> |StandingKeys(maxKeys, ttl, requests, k, r.putNow)| < maxKeys))
      && (!e.ran ==> !e.kept)
      && forall i: nat :: Standing(maxKeys, ttl, requests, k, i, r.getNow) && requests[i].key == r.key ==>
           e.reply == if requests[i].hash == r.hash then Handled(requests[i].response) else KeyConflict
  {
    var r, t := requests[k], TableAt(maxKeys, ttl, requests, k);
    LiveIsStanding(maxKeys, ttl, requests, k, r.getNow, r.key);
    assert LiveAt(t, r.putNow).Keys == StandingKeys(maxKeys, ttl, requests, k, r.putNow) by {
      LiveKeys(maxKeys, ttl, requests, k, r.putNow);
    }
    assert |LiveAt(t, r.putNow)| == |LiveAt(t, r.putNow).Keys|;
    hide TableAt, Standing, StandingKeys;
    if EffectOf(maxKeys, ttl, requests, k).ran {
      KeptUnlessFull(t, maxKeys, ttl, r);
    }
  }

  lemma LiveKeys(maxKeys: nat, ttl: int, requests: seq<Request>, k: nat, now: int)
    requires RequestClock(requests) && k < |requests| && requests[k].getNow <= now
    ensures LiveAt(TableAt(maxKeys, ttl, requests, k), now).Keys == StandingKeys(maxKeys, ttl, requests, k, now)
  {
    var live := LiveAt(TableAt(maxKeys, ttl, requests, k), now);
    forall key ensures key in live.Keys <==> key in StandingKeys(maxKeys, ttl, requests, k, now) {
      LiveIsStanding(maxKeys, ttl, requests, k, now, key);
      hide TableAt, LiveAt;
      if i: nat :| Standing(maxKeys, ttl, requests, k, i, now) && requests[i].key == key {
        assert key in StandingKeys(maxKeys, ttl, requests, k, now);
      }
    }
  }

  // The requests that are not looked up do not show.

  function Consulting(requests: seq<Request>): seq<Request> {
    if requests == [] then []
    else
      var last := requests[|requests| - 1];
      Consulting(requests[..|requests| - 1]) + if Consults(last) then [last] else []
  }

  lemma {:induction false} TableOfPrefix(maxKeys: nat, ttl: int, requests: seq<Request>, n: nat, k: nat)
    requires k <= n <= |requests|
    ensures TableAt(maxKeys, ttl, requests[..n], k) == TableAt(maxKeys, ttl, requests, k)
  {
    hide Handle;
    if k > 0 {
      TableOfPrefix(maxKeys, ttl, requests, n, k - 1);
      assert requests[..n][k - 1] == requests[k - 1];
    }
  }

  lemma TableOfSnoc(maxKeys: nat, ttl: int, requests: seq<Request>, r: Request)
    ensures TableAt(maxKeys, ttl, requests + [r], |requests| + 1) ==
            Handle(TableAt(maxKeys, ttl, requests, |requests|), maxKeys, ttl, r).table
  {
    hide Handle;
    TableOfPrefix(maxKeys, ttl, requests + [r], |requests|, |requests|);
    assert (requests + [r])[..|requests|] == requests;
  }

  lemma {:induction false} ConsultingTable(maxKeys: nat, ttl: int, requests: seq<Request>)
    ensures TableAt(maxKeys, ttl, Consulting(requests), |Consulting(requests)|) == TableAt(maxKeys, ttl, requests, |requests|)
  {
    if requests != [] {
      var front, last := requests[..|requests| - 1], requests[|requests| - 1];
      ConsultingTable(maxKeys, ttl, front);
      TableOfSnoc(maxKeys, ttl, front, last);
      assert front + [last] == requests;
      if Consults(last) {
        TableOfSnoc(maxKeys, ttl, Consulting(front), last);
      } else {
        PassedThrough(maxKeys, ttl, TableAt(maxKeys, ttl, front, |front|), last);
        assert Consulting(front) + [] == Consulting(front);
      }
      hide Handle, Consults, TableAt;
    }
  }

  lemma {:induction false} ConsultingExtend(requests: seq<Request>, k: nat)
    requires k <= |requests|
    ensures |Consulting(requests[..k])| <= |Consulting(requests)|
    ensures Consulting(requests)[..|Consulting(requests[..k])|] == Consulting(requests[..k])
    decreases |requests|
  {
    if k == |requests| {
      assert requests[..k] == requests;
    } else {
      var last := |requests| - 1;
      assert requests[..last][..k] == requests[..k];
      ConsultingExtend(requests[..last], k);
    }
  }

  /** Every request that is looked up has the effect it would have in the run in which
      there are no others. */
  lemma OthersUnaffected(maxKeys: nat, ttl: int, requests: seq<Request>, k: nat)
    requires k < |requests| && Consults(requests[k])
    ensures var rest, n := Consulting(requests), |Consulting(requests[..k])|;
      n < |rest| && rest[n] == requests[k] && EffectOf(maxKeys, ttl, rest, n) == EffectOf(maxKeys, ttl, requests, k)
  {
    hide Handle, TableAt, Consults;
    var rest, n := Consulting(requests), |Consulting(requests[..k])|;
    assert requests[..k + 1][..k] == requests[..k];
    ConsultingExtend(requests, k);
    ConsultingExtend(requests, k + 1);
    assert Consulting(requests[..k + 1]) == Consulting(requests[..k]) + [requests[k]];
    assert rest[n] == rest[..n + 1][n];
    ConsultingTable(maxKeys, ttl, requests[..k]);
    TableOfPrefix(maxKeys, ttl, requests, k, k);
    TableOfPrefix(maxKeys, ttl, rest, n, n);
  }
}
