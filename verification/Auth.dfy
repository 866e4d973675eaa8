/** The chain of request checks that ends in the nonce cache, and how long a replay
    stays refused over a whole run. */
module Auth {
  import opened Sets
  import opened NonceCache

  const MIN_DURATION: int := -0x8000_0000_0000_0000
  const MAX_DURATION: int := 0x7fff_ffff_ffff_ffff

  /** time.Time.Sub, which saturates. */
  function Sub(t: int, u: int): int {
    if t - u < MIN_DURATION then MIN_DURATION else if t - u > MAX_DURATION then MAX_DURATION else t - u
  }

  /** int64 negation, which maps the least value to itself. */
  function Negate(d: int): int {
    if d == MIN_DURATION then MIN_DURATION else -d
  }

  type Int64 = x: int | -0x8000_0000_0000_0000 <= x < 0x8000_0000_0000_0000

  /** int64 addition wraps around. */
  function Wrap(x: int): Int64 {
    (x + 0x8000_0000_0000_0000) % 0x1_0000_0000_0000_0000 - 0x8000_0000_0000_0000
  }

  /** time.Time counts seconds from the year 1, this many before 1970. */
  const UNIX_TO_INTERNAL: int := 62135596800

  /** time.Unix(seconds, 0), in nanoseconds since 1970. */
  function Instant(seconds: Int64): int {
    (Wrap(seconds + UNIX_TO_INTERNAL) - UNIX_TO_INTERNAL) * SECOND
  }

  predicate TimestampInSkew(timestamp: int, now: int) {
    var skew := Sub(now, timestamp);
    var skew := if skew < 0 then Negate(skew) else skew;
    !(skew > MAX_TIMESTAMP_SKEW)
  }

  /** The check is |now - timestamp| <= 300s for every instant less than 2^63 ns (292
      years) ahead of the clock; from there on saturation lets all pass. */
  lemma InstantInSkewExactly(timestamp: int, now: int)
    ensures TimestampInSkew(timestamp, now) <==>
            -MAX_TIMESTAMP_SKEW <= now - timestamp <= MAX_TIMESTAMP_SKEW || timestamp - now >= 0x8000_0000_0000_0000
  {
  }

  /** In seconds as they come in the header, with a clock between 1970 and 2262: those
      so far ahead that the instant wraps around are rejected again. */
  lemma TimestampInSkewExactly(seconds: Int64, now: nat)
    requires now < 0x8000_0000_0000_0000
    ensures TimestampInSkew(Instant(seconds), now) <==>
            || -MAX_TIMESTAMP_SKEW <= now - seconds * SECOND <= MAX_TIMESTAMP_SKEW
            || (seconds * SECOND - now >= 0x8000_0000_0000_0000 && seconds < 0x8000_0000_0000_0000 - UNIX_TO_INTERNAL)
  {
    InstantInSkewExactly(Instant(seconds), now);
    if seconds < 0x8000_0000_0000_0000 - UNIX_TO_INTERNAL {
      assert Wrap(seconds + UNIX_TO_INTERNAL) == seconds + UNIX_TO_INTERNAL;
    } else {
      assert Wrap(seconds + UNIX_TO_INTERNAL) == seconds + UNIX_TO_INTERNAL - 0x1_0000_0000_0000_0000;
    }
  }

  /** What the checks look at; the header parsing, the token comparison and the HMAC
      enter as their results. `timestamp` is in seconds. */
  datatype Request = Request(
    tokenValid: bool, hasSignature: bool, hasTimestamp: bool, nonce: string,
    timestampParses: bool, timestamp: Int64, bodyReadable: bool, bodySize: nat, signatureValid: bool)

  /** A request and the two readings of the clock that its checks take. */
  datatype Call = Call(request: Request, skewNow: int, storeNow: int)

  datatype Verdict = Allowed | Unauthorized | ReplayDetected

  const MAX_AUTH_BODY_SIZE: nat := 10 * 1024 * 1024

  /** Everything that is checked before the nonce. */
  predicate Authentic(c: Call) {
    var r := c.request;
    && r.tokenValid && r.hasSignature && r.hasTimestamp && r.nonce != "" && r.timestampParses
    && TimestampInSkew(Instant(r.timestamp), c.skewNow)
    && r.bodyReadable && r.bodySize <= MAX_AUTH_BODY_SIZE && r.signatureValid
  }

  function Authenticated(entries: seq<Entry>, c: Call): (seq<Entry>, Verdict) {
    if !Authentic(c) then (entries, Unauthorized)
    else
      var (after, ok) := Checked(entries, c.request.nonce, c.storeNow);
      (after, if ok then Allowed else ReplayDetected)
  }

  method AuthenticateRequest(cache: NonceCache, c: Call) returns (verdict: Verdict)
    requires cache.Valid()
    modifies cache
    ensures cache.Valid() && (cache.Entries(), verdict) == Authenticated(old(cache.Entries()), c)
  {
    var r := c.request;
    if !r.tokenValid { return Unauthorized; }
    if !r.hasSignature { return Unauthorized; }
    if !r.hasTimestamp { return Unauthorized; }
    if r.nonce == "" { return Unauthorized; }
    if !r.timestampParses { return Unauthorized; }
    var time := Instant(r.timestamp);
    if !TimestampInSkew(time, c.skewNow) { return Unauthorized; }
    if !r.bodyReadable { return Unauthorized; }
    if r.bodySize > MAX_AUTH_BODY_SIZE { return Unauthorized; }
    if !r.signatureValid { return Unauthorized; }
    var ok := cache.CheckAndStoreNonce(r.nonce, c.storeNow);
    if !ok { return ReplayDetected; }
    return Allowed;
  }

  // Runs.

  /** The cache before the k-th call of a run. */
  function CacheAt(calls: seq<Call>, k: nat): seq<Entry>
    requires k <= |calls|
  {
    if k == 0 then [] else Authenticated(CacheAt(calls, k - 1), calls[k - 1]).0
  }

  predicate Accepts(calls: seq<Call>, k: nat)
    requires k < |calls|
  {
    Authenticated(CacheAt(calls, k), calls[k]).1.Allowed?
  }

  /** The nonces accepted from the lo-th call up to the hi-th. */
  ghost function AcceptedBetween(calls: seq<Call>, lo: nat, hi: nat): set<string>
    requires hi <= |calls|
  {
    set k | lo <= k < hi && Accepts(calls, k) :: calls[k].request.nonce
  }

  /** The clock does not run backwards in the order in which nonces are stored. */
  predicate ClockInOrder(calls: seq<Call>) {
    forall i, j | 0 <= i < j < |calls| :: calls[i].storeNow <= calls[j].storeNow
  }

  function Nonces(entries: seq<Entry>): (r: set<string>)
    ensures forall nonce :: nonce in r <==> Holds(entries, nonce)
  {
    set i | 0 <= i < |entries| :: entries[i].nonce
  }

  lemma {:induction false} DistinctNonces(entries: seq<Entry>)
    requires OncePerNonce(entries)
    ensures |Nonces(entries)| == |entries|
  {
    if entries == [] {
      assert Nonces(entries) == {};
    } else {
      var last := |entries| - 1;
      DistinctNonces(entries[..last]);
      assert Nonces(entries) == Nonces(entries[..last]) + {entries[last].nonce};
    }
  }

  lemma {:induction false} CacheStaysDistinct(calls: seq<Call>, k: nat)
    requires k <= |calls|
    ensures OncePerNonce(CacheAt(calls, k))
  {
    if k > 0 {
      hide OncePerNonce, Authenticated;
      CacheStaysDistinct(calls, k - 1);
      CallKeepsDistinct(CacheAt(calls, k - 1), calls[k - 1]);
    }
  }

  lemma CallKeepsDistinct(before: seq<Entry>, c: Call)
    requires OncePerNonce(before)
    ensures OncePerNonce(Authenticated(before, c).0)
  {
    hide OncePerNonce, Checked, Authentic, Holds;
    if Authentic(c) {
      CheckKeepsDistinct(before, c.request.nonce, c.storeNow);
    }
  }

  lemma CheckKeepsDistinct(before: seq<Entry>, nonce: string, now: int)
    requires OncePerNonce(before)
    ensures OncePerNonce(Checked(before, nonce, now).0)
  {
    hide OncePerNonce, Holds, Evicted, CleanedUp;
    if !Holds(before, nonce) {
      CheckedIsSuffix(before, nonce, now);
      var n := |before| + 1 - |Checked(before, nonce, now).0|;
      hide Checked;
      DistinctSuffix(before, n, Entry(nonce, now));
    }
  }

  lemma DistinctSuffix(entries: seq<Entry>, n: nat, e: Entry)
    requires n <= |entries| && OncePerNonce(entries) && !Holds(entries, e.nonce)
    ensures OncePerNonce(entries[n..] + [e])
  {
  }

  // What the cache holds, and what a request has to bring.

  /** The nonces of the calls accepted before the k-th, with the time of each. */
  function AcceptedBefore(calls: seq<Call>, k: nat): seq<Entry>
    requires k <= |calls|
  {
    if k == 0 then []
    else
      AcceptedBefore(calls, k - 1) +
      if Accepts(calls, k - 1) then [Entry(calls[k - 1].request.nonce, calls[k - 1].storeNow)] else []
  }

  /** Among the last 10000, and no more than a day older than the last. */
  predicate Standing(accepted: seq<Entry>, i: nat) {
    && i < |accepted| && |accepted| - i <= 10000
    && accepted[|accepted| - 1].stored - accepted[i].stored <= 86_400_000_000_000
  }

  predicate Sorted(entries: seq<Entry>) {
    forall i, j | 0 <= i <= j < |entries| :: entries[i].stored <= entries[j].stored
  }

  /** The part of the accepted entries from the first that stands. */
  function Recent(accepted: seq<Entry>): seq<Entry> {
    if accepted == [] || Standing(accepted, 0) then accepted else Recent(accepted[1..])
  }

  lemma {:induction false} RecentStands(accepted: seq<Entry>)
    requires Sorted(accepted)
    ensures var n := |accepted| - |Recent(accepted)|;
            n >= 0 && Recent(accepted) == accepted[n..] && forall i: nat | i < |accepted| :: Standing(accepted, i) <==> n <= i
  {
    if accepted != [] {
      if Standing(accepted, 0) {
        assert forall i | 0 <= i < |accepted| :: accepted[0].stored <= accepted[i].stored;
      } else {
        var rest := accepted[1..];
        assert Sorted(rest);
        hide Sorted;
        RecentStands(rest);
        var n := |rest| - |Recent(rest)|;
        assert forall i: nat | i < |rest| :: Standing(rest, i) <==> Standing(accepted, i + 1);
        hide Standing, Recent;
        forall i: nat | 0 < i < |accepted| ensures Standing(accepted, i) <==> n + 1 <= i {
          assert Standing(rest, i - 1) <==> n <= i - 1;
        }
        assert rest[n..] == accepted[n + 1..];
      }
    }
  }

  /** Cleaning up, evicting and storing moves from one such part to the next. */
  lemma {:induction false} RecentStep(accepted: seq<Entry>, e: Entry)
    requires Sorted(accepted + [e])
    ensures Recent(accepted + [e]) == Evicted(CleanedUp(Recent(accepted), e.stored)) + [e]
  {
    if accepted == [] {
      assert Standing([] + [e], 0);
    } else {
      assert (accepted + [e])[1..] == accepted[1..] + [e];
      if Standing(accepted, 0) && !Expired(accepted[0], e.stored) {
        RecentFront(accepted, e);
      } else {
        FrontFalls(accepted, e);
        hide Standing, Evicted, Sorted;
        RecentStep(accepted[1..], e);
      }
    }
  }

  lemma FrontFalls(accepted: seq<Entry>, e: Entry)
    requires accepted != [] && Sorted(accepted + [e]) && (Expired(accepted[0], e.stored) || !Standing(accepted, 0))
    ensures !Standing(accepted + [e], 0) && Sorted(accepted[1..] + [e])
    ensures CleanedUp(Recent(accepted), e.stored) == CleanedUp(Recent(accepted[1..]), e.stored)
  {
    SortedParts(accepted, e);
    hide Sorted, Expired;
    assert (accepted + [e])[0] == accepted[0];
    if Standing(accepted, 0) {
      RecentTail(accepted);
    }
  }

  lemma SortedParts(entries: seq<Entry>, e: Entry)
    requires entries != [] && Sorted(entries + [e])
    ensures Sorted(entries) && Sorted(entries[1..] + [e])
    ensures entries[0].stored <= entries[|entries| - 1].stored <= e.stored
    ensures entries[0].stored <= (entries[1..] + [e])[0].stored
  {
    var all := entries + [e];
    assert all[1..] == entries[1..] + [e];
    assert all[0].stored <= all[|entries| - 1].stored <= all[|entries|].stored;
    assert forall i | 0 <= i < |entries| :: entries[i] == all[i];
    assert all[0].stored <= all[1].stored;
  }

  lemma RecentFront(accepted: seq<Entry>, e: Entry)
    requires Sorted(accepted + [e]) && Standing(accepted, 0) && !Expired(accepted[0], e.stored)
    ensures Recent(accepted + [e]) == Evicted(CleanedUp(Recent(accepted), e.stored)) + [e]
  {
    SortedParts(accepted, e);
    NoneExpired(accepted, e.stored);
    hide Sorted, CleanedUp;
    assert Recent(accepted) == accepted;
    if |accepted| == 10000 {
      assert (accepted + [e])[1..] == accepted[1..] + [e];
      assert Standing(accepted[1..] + [e], 0);
      assert !Standing(accepted + [e], 0);
      assert Recent(accepted + [e]) == accepted[1..] + [e];
    } else {
      assert Standing(accepted + [e], 0);
    }
  }

  lemma RecentTail(accepted: seq<Entry>)
    requires Sorted(accepted) && Standing(accepted, 0)
    ensures Recent(accepted[1..]) == accepted[1..]
  {
    if |accepted| > 1 {
      assert accepted[0].stored <= accepted[1].stored;
      assert Standing(accepted[1..], 0);
    }
  }

  lemma NoneExpired(entries: seq<Entry>, now: int)
    requires entries != [] && !Expired(entries[0], now)
    ensures CleanedUp(entries, now) == entries
  {
  }

  lemma {:induction false} AcceptedSorted(calls: seq<Call>, k: nat)
    requires ClockInOrder(calls) && k <= |calls|
    ensures Sorted(AcceptedBefore(calls, k))
    ensures k < |calls| ==> forall e | e in AcceptedBefore(calls, k) :: e.stored <= calls[k].storeNow
  {
    hide Accepts;
    if k > 0 {
      AcceptedSorted(calls, k - 1);
    }
  }

  /** While the clock does not run backwards the cache holds, in order, the accepted
      nonces that stand. */
  lemma {:induction false} CacheExactly(calls: seq<Call>, k: nat)
    requires ClockInOrder(calls) && k <= |calls|
    ensures CacheAt(calls, k) == Recent(AcceptedBefore(calls, k))
  {
    if k > 0 {
      CacheExactly(calls, k - 1);
      AcceptedSorted(calls, k);
      CallStands(calls, k - 1, AcceptedBefore(calls, k - 1));
    }
  }

  lemma CallStands(calls: seq<Call>, k: nat, before: seq<Entry>)
    requires k < |calls| && before == AcceptedBefore(calls, k) && Sorted(AcceptedBefore(calls, k + 1))
    requires CacheAt(calls, k) == Recent(before)
    ensures CacheAt(calls, k + 1) == Recent(AcceptedBefore(calls, k + 1))
  {
    hide Sorted, Recent, Evicted, CleanedUp, Authentic, Holds;
    var e := Entry(calls[k].request.nonce, calls[k].storeNow);
    if Accepts(calls, k) {
      assert AcceptedBefore(calls, k + 1) == before + [e];
      assert CacheAt(calls, k + 1) == Evicted(CleanedUp(Recent(before), e.stored)) + [e];
      hide CacheAt, AcceptedBefore, Accepts;
      RecentStep(before, e);
    } else {
      assert before + [] == before;
    }
  }

  /** Seconds as a 64-bit count from the year 1 that wraps around. */
  function Seconds(timestamp: Int64): int {
    if timestamp < 0x8000_0000_0000_0000 - 62_135_596_800 then timestamp else timestamp - 0x1_0000_0000_0000_0000
  }

  lemma InstantOfSeconds(timestamp: Int64)
    ensures Instant(timestamp) == Seconds(timestamp) * 1_000_000_000
  {
    if timestamp < 0x8000_0000_0000_0000 - 62_135_596_800 {
      assert Wrap(timestamp + UNIX_TO_INTERNAL) == timestamp + UNIX_TO_INTERNAL;
    } else {
      assert Wrap(timestamp + UNIX_TO_INTERNAL) == timestamp + UNIX_TO_INTERNAL - 0x1_0000_0000_0000_0000;
    }
  }

  /** Everything a request has to bring but a new nonce: the token, the three headers, a
      timestamp at most 300 seconds away from the clock or 292 years ahead of it, a
      readable body of at most 10 MiB and the signature. */
  predicate Brings(c: Call) {
    var r := c.request;
    var ahead := Seconds(r.timestamp) * 1_000_000_000 - c.skewNow;
    && r.tokenValid && r.signatureValid
    && r.hasSignature && r.hasTimestamp && r.nonce != "" && r.timestampParses
    && (-300_000_000_000 <= ahead <= 300_000_000_000 || ahead >= 0x8000_0000_0000_0000)
    && r.bodyReadable && r.bodySize <= 10_485_760
  }

  /** Whatever the cache holds: a request that does not bring all of it is unauthorized,
      one whose nonce is held is a replay, and neither changes the cache. */
  lemma ChecksExactly(entries: seq<Entry>, c: Call)
    ensures var (after, verdict) := Authenticated(entries, c);
      && verdict == (if !Brings(c) then Unauthorized else if Holds(entries, c.request.nonce) then ReplayDetected else Allowed)
      && (!verdict.Allowed? ==> after == entries)
  {
    AuthenticExactly(c);
    hide Authentic, Brings, Holds;
  }

  lemma AuthenticExactly(c: Call)
    ensures Authentic(c) <==> Brings(c)
  {
    InstantOfSeconds(c.request.timestamp);
    InstantInSkewExactly(Instant(c.request.timestamp), c.skewNow);
    hide Instant, TimestampInSkew, Seconds;
  }

  /** In every run whose clock does not run backwards: a request that brings all of it is
      allowed unless its nonce stands. */
  lemma VerdictsExactly(calls: seq<Call>, k: nat)
    requires ClockInOrder(calls) && k < |calls|
    ensures var accepted := AcceptedBefore(calls, k);
      Accepts(calls, k) <==>
      Brings(calls[k]) && !exists i: nat :: Standing(accepted, i) && accepted[i].nonce == calls[k].request.nonce
  {
    ChecksExactly(CacheAt(calls, k), calls[k]);
    CacheExactly(calls, k);
    AcceptedSorted(calls, k);
    hide Standing, Recent, CacheAt;
    RecentHolds(AcceptedBefore(calls, k), calls[k].request.nonce);
  }

  lemma RecentHolds(accepted: seq<Entry>, nonce: string)
    requires Sorted(accepted)
    ensures Holds(Recent(accepted), nonce) <==> exists i: nat :: Standing(accepted, i) && accepted[i].nonce == nonce
  {
    RecentStands(accepted);
    var n, r := |accepted| - |Recent(accepted)|, Recent(accepted);
    assert forall i: nat :: Standing(accepted, i) <==> n <= i < |accepted|;
    hide Standing, Recent, Sorted;
    if Holds(r, nonce) {
      var j :| 0 <= j < |r| && r[j].nonce == nonce;
      assert Standing(accepted, n + j) && accepted[n + j].nonce == nonce;
    }
    if i: nat :| Standing(accepted, i) && accepted[i].nonce == nonce {
      assert r[i - n].nonce == nonce;
    }
  }

  /** The entry stands here, and behind it only what was accepted since. */
  predicate HeldAt(entries: seq<Entry>, at: nat, e: Entry, since: set<string>) {
    at < |entries| && entries[at] == e && forall b | at < b < |entries| :: entries[b].nonce in since
  }

  ghost predicate Held(entries: seq<Entry>, e: Entry, since: set<string>) {
    exists at: nat :: HeldAt(entries, at, e, since)
  }

  /** At least as many other nonces have been accepted as the cache holds. */
  predicate Crowded(e: Entry, since: set<string>) {
    |since - {e.nonce}| >= MAX_NONCE_CACHE_SIZE
  }

  /** Cleaning up does not reach an entry that has not expired. */
  lemma {:induction false} CleanupStops(entries: seq<Entry>, now: int, at: nat)
    requires at < |entries| && !Expired(entries[at], now)
    ensures |CleanedUp(entries, now)| >= |entries| - at
  {
    if Expired(entries[0], now) {
      CleanupStops(entries[1..], now, at - 1);
    }
  }

  lemma AcceptedGrows(calls: seq<Call>, i: nat, k: nat)
    requires i < k < |calls|
    ensures AcceptedBetween(calls, i + 1, k + 1) ==
            AcceptedBetween(calls, i + 1, k) + if Accepts(calls, k) then {calls[k].request.nonce} else {}
  {
    hide Accepts;
  }

  /** One accepted nonce later, an unexpired entry is still held or crowded out. */
  lemma HeldOrCrowded(entries: seq<Entry>, at: nat, e: Entry, since: set<string>, nonce: string, now: int)
    requires HeldAt(entries, at, e, since) && OncePerNonce(entries) && !Holds(entries, nonce)
    requires !Expired(e, now)
    ensures Held(Checked(entries, nonce, now).0, e, since + {nonce}) || Crowded(e, since + {nonce})
  {
    hide Checked, OncePerNonce, Holds;
    var after := Checked(entries, nonce, now).0;
    CheckedIsSuffix(entries, nonce, now);
    CheckedSize(entries, at, nonce, now);
    var dropped := |entries| + 1 - |after|;
    if dropped <= at {
      StillHeld(entries, at, e, since, Entry(nonce, now), dropped);
    } else {
      CrowdedOut(entries, at, e, since, Entry(nonce, now));
    }
  }

  lemma CheckedSize(entries: seq<Entry>, at: nat, nonce: string, now: int)
    requires at < |entries| && !Expired(entries[at], now) && !Holds(entries, nonce)
    ensures var after := Checked(entries, nonce, now).0;
            |after| == MAX_NONCE_CACHE_SIZE || |after| >= |entries| + 1 - at
  {
    CleanupStops(entries, now, at);
  }

  lemma StillHeld(entries: seq<Entry>, at: nat, e: Entry, since: set<string>, last: Entry, dropped: nat)
    requires HeldAt(entries, at, e, since) && dropped <= at
    ensures Held(entries[dropped..] + [last], e, since + {last.nonce})
  {
    var after := entries[dropped..] + [last];
    forall b | at - dropped < b < |after| ensures after[b].nonce in since + {last.nonce} {
      assert b < |after| - 1 ==> after[b] == entries[b + dropped];
    }
    assert HeldAt(after, at - dropped, e, since + {last.nonce});
  }

  lemma CrowdedOut(entries: seq<Entry>, at: nat, e: Entry, since: set<string>, last: Entry)
    requires HeldAt(entries, at, e, since) && OncePerNonce(entries) && !Holds(entries, last.nonce)
    requires |entries| - at >= MAX_NONCE_CACHE_SIZE
    ensures Crowded(e, since + {last.nonce})
  {
    var behind := entries[at + 1..] + [last];
    DistinctSuffix(entries, at + 1, last);
    DistinctNonces(behind);
    forall nonce | nonce in Nonces(behind) ensures nonce in since + {last.nonce} - {e.nonce} {
      var b :| 0 <= b < |behind| && behind[b].nonce == nonce;
      if b < |behind| - 1 {
        assert behind[b] == entries[at + 1 + b];
        assert entries[at].nonce != entries[at + 1 + b].nonce;
      }
    }
    SubsetCardinality(Nonces(behind), since + {last.nonce} - {e.nonce});
  }

  /** The nonce of the i-th call is in the cache before the k-th, or crowded out. */
  ghost predicate Kept(calls: seq<Call>, i: nat, k: nat)
    requires i < k <= |calls|
  {
    var e := Entry(calls[i].request.nonce, calls[i].storeNow);
    var since := AcceptedBetween(calls, i + 1, k);
    Held(CacheAt(calls, k), e, since) || Crowded(e, since)
  }

  lemma {:induction false} HeldUntil(calls: seq<Call>, i: nat, k: nat)
    requires i < k <= |calls| && Accepts(calls, i)
    requires forall j | i < j < k :: calls[j].storeNow - calls[i].storeNow <= NONCE_CACHE_TTL
    ensures Kept(calls, i, k)
    decreases k
  {
    hide Kept, Accepts;
    if k == i + 1 {
      JustHeld(calls, i);
    } else {
      HeldUntil(calls, i, k - 1);
      KeptByCall(calls, i, k - 1);
    }
  }

  lemma KeptByCall(calls: seq<Call>, i: nat, k: nat)
    requires i < k < |calls| && calls[k].storeNow - calls[i].storeNow <= NONCE_CACHE_TTL
    requires Kept(calls, i, k)
    ensures Kept(calls, i, k + 1)
  {
    hide Held, Crowded, CacheAt, Accepts, AcceptedBetween;
    var e := Entry(calls[i].request.nonce, calls[i].storeNow);
    CallKeepsHeld(calls, k, e, AcceptedBetween(calls, i + 1, k));
    AcceptedGrows(calls, i, k);
  }

  lemma JustHeld(calls: seq<Call>, i: nat)
    requires i < |calls| && Accepts(calls, i)
    ensures Kept(calls, i, i + 1)
  {
    var e := Entry(calls[i].request.nonce, calls[i].storeNow);
    CheckedIsSuffix(CacheAt(calls, i), e.nonce, e.stored);
    var after := CacheAt(calls, i + 1);
    assert after == Checked(CacheAt(calls, i), e.nonce, e.stored).0;
    hide Checked, CacheAt;
    hide AcceptedBetween;
    assert HeldAt(after, |after| - 1, e, AcceptedBetween(calls, i + 1, i + 1));
  }

  lemma CallKeepsHeld(calls: seq<Call>, k: nat, e: Entry, since: set<string>)
    requires k < |calls| && !Expired(e, calls[k].storeNow)
    requires Held(CacheAt(calls, k), e, since) || Crowded(e, since)
    ensures var since' := since + if Accepts(calls, k) then {calls[k].request.nonce} else {};
      Held(CacheAt(calls, k + 1), e, since') || Crowded(e, since')
  {
    var entries, c := CacheAt(calls, k), calls[k];
    var since' := since + if Accepts(calls, k) then {c.request.nonce} else {};
    SubsetCardinality(since - {e.nonce}, since' - {e.nonce});
    CacheStaysDistinct(calls, k);
    assert if Accepts(calls, k)
           then !Holds(entries, c.request.nonce) && CacheAt(calls, k + 1) == Checked(entries, c.request.nonce, c.storeNow).0
           else CacheAt(calls, k + 1) == entries;
    hide Accepts, CacheAt, Checked, HeldAt, OncePerNonce, Holds;
    if Held(entries, e, since) {
      var at: nat :| HeldAt(entries, at, e, since);
      if Accepts(calls, k) {
        HeldOrCrowded(entries, at, e, since, c.request.nonce, c.storeNow);
      } else {
        assert since' == since;
      }
    }
  }

  /** A request is accepted a second time only after as many other nonces as the
      cache holds: for any timestamp that is not 292 years ahead, and requests whose
      body takes less than 23 h 50 min from the skew check to the nonce check. */
  lemma ReplayNeedsFullCache(calls: seq<Call>, i: nat, j: nat)
    requires ClockInOrder(calls) && i < j < |calls|
    requires Accepts(calls, i) && Accepts(calls, j)
    requires calls[i].request.nonce == calls[j].request.nonce && calls[i].request.timestamp == calls[j].request.timestamp
    requires forall k | k == i || k == j ::
               Instant(calls[k].request.timestamp) - calls[k].skewNow < 0x8000_0000_0000_0000
    requires calls[i].skewNow <= calls[i].storeNow
    requires calls[j].storeNow - calls[j].skewNow <= NONCE_CACHE_TTL - 2 * MAX_TIMESTAMP_SKEW
    ensures |AcceptedBetween(calls, i + 1, j) - {calls[i].request.nonce}| >= MAX_NONCE_CACHE_SIZE
  {
    InstantInSkewExactly(Instant(calls[i].request.timestamp), calls[i].skewNow);
    InstantInSkewExactly(Instant(calls[j].request.timestamp), calls[j].skewNow);
    assert Authentic(calls[i]) && Authentic(calls[j]);
    assert !Holds(CacheAt(calls, j), calls[j].request.nonce);
    hide Authentic, CacheAt, Accepts, AcceptedBetween, Instant;
    assert calls[j].storeNow - calls[i].storeNow <= NONCE_CACHE_TTL;
    HeldUntil(calls, i, j);
  }

  // Requests that fail a check before the nonce.

  /** A run without them. */
  function Authentics(calls: seq<Call>): seq<Call> {
    if calls == [] then []
    else
      var last := |calls| - 1;
      Authentics(calls[..last]) + if Authentic(calls[last]) then [calls[last]] else []
  }

  lemma {:induction false} CacheOfPrefix(calls: seq<Call>, n: nat, k: nat)
    requires k <= n <= |calls|
    ensures CacheAt(calls[..n], k) == CacheAt(calls, k)
  {
    hide Authenticated;
    if k > 0 {
      CacheOfPrefix(calls, n, k - 1);
      assert calls[..n][k - 1] == calls[k - 1];
    }
  }

  lemma CacheOfSnoc(calls: seq<Call>, c: Call)
    ensures CacheAt(calls + [c], |calls| + 1) == Authenticated(CacheAt(calls, |calls|), c).0
  {
    hide Authenticated;
    CacheOfPrefix(calls + [c], |calls|, |calls|);
    assert (calls + [c])[..|calls|] == calls;
  }

  /** They leave no trace in the cache. */
  lemma {:induction false} AuthenticsCache(calls: seq<Call>)
    ensures CacheAt(Authentics(calls), |Authentics(calls)|) == CacheAt(calls, |calls|)
  {
    if calls != [] {
      var last := |calls| - 1;
      var front := calls[..last];
      AuthenticsCache(front);
      CacheOfSnoc(front, calls[last]);
      assert front + [calls[last]] == calls;
      if Authentic(calls[last]) {
        CacheOfSnoc(Authentics(front), calls[last]);
      } else {
        assert Authentics(front) + [] == Authentics(front);
      }
    }
  }

  lemma {:induction false} AuthenticsExtend(calls: seq<Call>, k: nat)
    requires k <= |calls|
    ensures |Authentics(calls[..k])| <= |Authentics(calls)|
    ensures Authentics(calls)[..|Authentics(calls[..k])|] == Authentics(calls[..k])
    decreases |calls|
  {
    if k == |calls| {
      assert calls[..k] == calls;
    } else {
      var last := |calls| - 1;
      assert calls[..last][..k] == calls[..k];
      AuthenticsExtend(calls[..last], k);
    }
  }

  /** Requests that fail a check before the nonce do not affect any other: every
      request that passes them gets the verdict that it would get in the run in which
      there are no such requests. */
  lemma OthersUnaffected(calls: seq<Call>, k: nat)
    requires k < |calls| && Authentic(calls[k])
    ensures var rest, n := Authentics(calls), |Authentics(calls[..k])|;
      && n < |rest| && rest[n] == calls[k]
      && Authenticated(CacheAt(rest, n), rest[n]).1 == Authenticated(CacheAt(calls, k), calls[k]).1
  {
    hide Authentic, Authenticated, CacheAt;
    var rest, n := Authentics(calls), |Authentics(calls[..k])|;
    assert calls[..k + 1][..k] == calls[..k];
    AuthenticsExtend(calls, k);
    AuthenticsExtend(calls, k + 1);
    assert Authentics(calls[..k + 1]) == Authentics(calls[..k]) + [calls[k]];
    assert rest[n] == rest[..n + 1][n];
    AuthenticsCache(calls[..k]);
    CacheOfPrefix(calls, k, k);
    CacheOfPrefix(rest, n, n);
  }

  /** For a timestamp further ahead the bound fails: after a day and a second one
      other nonce makes room for the same request. */
  lemma FarFutureTimestamp()
    ensures var calls := FarFutureRun();
      && ClockInOrder(calls) && calls[0].request == calls[2].request
      && Accepts(calls, 0) && Accepts(calls, 1) && Accepts(calls, 2)
  {
    var calls := FarFutureRun();
    hide CacheAt, Checked;
    assert calls[0].request.nonce[0] != calls[1].request.nonce[0];
    ExpiryMakesRoom(calls[0], calls[1], calls[2]);
  }

  /** Authentic requests are allowed whatever their nonces were a day and more ago. */
  lemma ExpiryMakesRoom(c0: Call, c1: Call, c2: Call)
    requires Authentic(c0) && Authentic(c1) && Authentic(c2)
    requires c0.request.nonce == c2.request.nonce != c1.request.nonce
    requires c1.storeNow - c0.storeNow > NONCE_CACHE_TTL
    ensures var calls := [c0, c1, c2]; Accepts(calls, 0) && Accepts(calls, 1) && Accepts(calls, 2)
  {
    hide Authentic, Checked;
    var calls := [c0, c1, c2];
    var first, other := Entry(c0.request.nonce, c0.storeNow), Entry(c1.request.nonce, c1.storeNow);
    CheckedFirst(first.nonce, first.stored);
    CheckedLater(first, other.nonce, other.stored);
    CheckedLater(other, c2.request.nonce, c2.storeNow);
    assert CacheAt(calls, 0) == [];
    assert CacheAt(calls, 1) == [first];
    assert CacheAt(calls, 2) == [other];
  }

  lemma CheckedFirst(nonce: string, now: int)
    ensures Checked([], nonce, now) == ([Entry(nonce, now)], true)
  {
    assert CleanedUp([], now) == [];
    assert [] + [Entry(nonce, now)] == [Entry(nonce, now)];
  }

  /** A new nonce is accepted, and stored alone when the entry before it has expired. */
  lemma CheckedLater(e: Entry, nonce: string, now: int)
    requires e.nonce != nonce
    ensures Checked([e], nonce, now).1
    ensures Expired(e, now) ==> Checked([e], nonce, now).0 == [Entry(nonce, now)]
  {
    if Expired(e, now) {
      assert [e][1..] == [] && CleanedUp([], now) == [];
      assert CleanedUp([e], now) == [];
    }
  }

  function FarFutureRun(): seq<Call> {
    var r := Request(true, true, true, "n", true, 20_000_000_000, true, 0, true);
    var later := NONCE_CACHE_TTL + SECOND;
    [Call(r, 0, 0), Call(r.(nonce := "m"), later, later), Call(r, later, later)]
  }
}
