/** The stats messages. Every Unmarshal is one loop over the fields, so decoding is
    stated once, as a fold of a message-specific step over the records. */
module Messages {
  import opened Wrappers
  import opened Wire

  /** What a field does to a message: the changed message, and an error if a nested
      message in it is malformed. */
  type Step<!M> = (M, Record) -> (M, Option<Error>)

  /** The message after reading all fields or up to the first error. */
  function Decode<M>(step: Step<M>, m: M, data: Bytes): (M, Option<Error>)
    decreases |data|
  {
    if data == [] then (m, None)
    else
      match ReadRecord(data)
      case Fail(e, _) => (m, Some(e))
      case Got(field, rest) =>
        var (next, err) := step(m, field);
        if err.Some? then (next, err) else Decode(step, next, rest)
  }

  /** Decoding is a homomorphism: bytes behind a well-formed message are decoded
      from where that message led. */
  lemma {:induction false} DecodeAppend<M>(step: Step<M>, m: M, x: Bytes, y: Bytes)
    requires Decode(step, m, x).1.None?
    ensures Decode(step, m, x + y) == Decode(step, Decode(step, m, x).0, y)
    decreases |x|
  {
    if x == [] {
      assert x + y == y;
    } else {
      hide ReadRecord;
      RecordExtends(x, y);
      var r := ReadRecord(x);
      DecodeAppend(step, step(m, r.value).0, r.rest, y);
    }
  }

  /** A field that the step ignores can stand at any field boundary. */
  lemma UnknownFieldIgnored<M>(step: Step<M>, m: M, x: Bytes, field: Bytes, y: Bytes)
    requires Decode(step, m, x).1.None?
    requires ReadRecord(field).Got? && ReadRecord(field).rest == []
    requires var at := Decode(step, m, x).0; step(at, ReadRecord(field).value) == (at, None)
    ensures Decode(step, m, x + field + y) == Decode(step, m, x + y)
  {
    hide Decode, ReadRecord;
    var at := Decode(step, m, x).0;
    OneRecord(step, at, field);
    DecodeAppend(step, at, field, y);
    assert x + field + y == x + (field + y);
    DecodeAppend(step, m, x, field + y);
    DecodeAppend(step, m, x, y);
  }

  lemma OneRecord<M>(step: Step<M>, m: M, field: Bytes)
    requires ReadRecord(field).Got? && ReadRecord(field).rest == []
    requires step(m, ReadRecord(field).value) == (m, None)
    ensures Decode(step, m, field) == (m, None)
  {
    assert field != [];
  }

  // The messages and their steps.

  datatype Stat = Stat(name: Text, value: Int64)

  datatype GetStatsRequest = GetStatsRequest(name: Text, reset: bool)

  datatype GetStatsResponse = GetStatsResponse(stat: Option<Stat>)

  datatype QueryStatsRequest = QueryStatsRequest(pattern: Text, reset: bool, patterns: seq<Text>, regexp: bool)

  datatype QueryStatsResponse = QueryStatsResponse(stats: seq<Stat>)

  datatype SysStatsResponse = SysStatsResponse(
    numGoroutine: Uint32, numGC: Uint32, alloc: Uint64, totalAlloc: Uint64, sys: Uint64,
    mallocs: Uint64, frees: Uint64, liveObjects: Uint64, pauseTotalNs: Uint64, uptime: Uint32)

  type Uint32 = v: int | 0 <= v < 0x1_0000_0000

  const NO_STAT := Stat([], 0)
  const NO_SYS_STATS := SysStatsResponse(0, 0, 0, 0, 0, 0, 0, 0, 0, 0)

  /** uint64(v), and int64(v), of Go. */
  function ToUint64(v: Int64): Uint64 { if v < 0 then v + TWO_64 else v }

  function ToInt64(v: Uint64): Int64 { if v >= 0x8000_0000_0000_0000 then v - TWO_64 else v }

  /** A slice that was read is no longer than the input it was cut from. */
  function AsText(b: Bytes): Text { if |b| < 0x8000_0000_0000_0000 then b else [] }

  /** Field `n` with this wire type. */
  predicate Is(r: Record, n: nat, wire: nat) {
    r.field == n && r.wire == wire && (if wire == 2 then r.payload.Chunk? else r.payload.Number?)
  }

  function StatStep(m: Stat, r: Record): (Stat, Option<Error>) {
    if Is(r, 1, 2) then (m.(name := AsText(r.payload.bytes)), None)
    else if Is(r, 2, 0) then (m.(value := ToInt64(r.payload.v)), None)
    else (m, None)
  }

  function GetStatsRequestStep(m: GetStatsRequest, r: Record): (GetStatsRequest, Option<Error>) {
    if Is(r, 1, 2) then (m.(name := AsText(r.payload.bytes)), None)
    else if Is(r, 2, 0) then (m.(reset := r.payload.v != 0), None)
    else (m, None)
  }

  /** The embedded stat is decoded afresh, not merged into the one already there. */
  function GetStatsResponseStep(m: GetStatsResponse, r: Record): (GetStatsResponse, Option<Error>) {
    if Is(r, 1, 2) then
      var (stat, err) := Decode(StatStep, NO_STAT, r.payload.bytes);
      (GetStatsResponse(Some(stat)), err)
    else (m, None)
  }

  function QueryStatsRequestStep(m: QueryStatsRequest, r: Record): (QueryStatsRequest, Option<Error>) {
    if Is(r, 1, 2) then (m.(pattern := AsText(r.payload.bytes)), None)
    else if Is(r, 2, 0) then (m.(reset := r.payload.v != 0), None)
    else if Is(r, 3, 2) then (m.(patterns := m.patterns + [AsText(r.payload.bytes)]), None)
    else if Is(r, 4, 0) then (m.(regexp := r.payload.v != 0), None)
    else (m, None)
  }

  function QueryStatsResponseStep(m: QueryStatsResponse, r: Record): (QueryStatsResponse, Option<Error>) {
    if Is(r, 1, 2) then
      var (stat, err) := Decode(StatStep, NO_STAT, r.payload.bytes);
      if err.Some? then (m, err) else (QueryStatsResponse(m.stats + [stat]), None)
    else (m, None)
  }

  function SysStatsResponseStep(m: SysStatsResponse, r: Record): (SysStatsResponse, Option<Error>) {
    if !Is(r, r.field, 0) then (m, None)
    else
      var v := r.payload.v;
      var low: Uint32 := v % 0x1_0000_0000;
      match r.field
      case 1 => (m.(numGoroutine := low), None)
      case 2 => (m.(numGC := low), None)
      case 3 => (m.(alloc := v), None)
      case 4 => (m.(totalAlloc := v), None)
      case 5 => (m.(sys := v), None)
      case 6 => (m.(mallocs := v), None)
      case 7 => (m.(frees := v), None)
      case 8 => (m.(liveObjects := v), None)
      case 9 => (m.(pauseTotalNs := v), None)
      case 10 => (m.(uptime := low), None)
      case _ => (m, None)
  }

  function SysStatsRequestStep(m: (), r: Record): ((), Option<Error>) { ((), None) }

  // The writers; a field with the zero value is left out.

  function TextField(field: nat, s: Text): Bytes { if s == [] then [] else EncodeChunk(field, s) }

  function BoolField(field: nat, v: bool): Bytes { if v then EncodeNumber(field, 1) else [] }

  function NumberField(field: nat, v: Uint64): Bytes { if v == 0 then [] else EncodeNumber(field, v) }

  function EncodeStat(m: Stat): Bytes {
    TextField(1, m.name) + NumberField(2, ToUint64(m.value))
  }

  function EncodeGetStatsRequest(m: GetStatsRequest): Bytes {
    TextField(1, m.name) + BoolField(2, m.reset)
  }

  function EncodeGetStatsResponse(m: GetStatsResponse): Bytes {
    if m.stat.None? then [] else EncodeChunk(1, EncodeStat(m.stat.value))
  }

  function EncodePatterns(patterns: seq<Text>): Bytes {
    if patterns == [] then []
    else EncodePatterns(patterns[..|patterns| - 1]) + EncodeChunk(3, patterns[|patterns| - 1])
  }

  function EncodeQueryStatsRequest(m: QueryStatsRequest): Bytes {
    TextField(1, m.pattern) + BoolField(2, m.reset) + EncodePatterns(m.patterns) + BoolField(4, m.regexp)
  }

  function EncodeStats(stats: seq<Stat>): Bytes {
    if stats == [] then []
    else EncodeStats(stats[..|stats| - 1]) + EncodeChunk(1, EncodeStat(stats[|stats| - 1]))
  }

  function EncodeSysStatsResponse(m: SysStatsResponse): Bytes {
    EncodeUpto(m, 10)
  }

  // Round trips.

  lemma DecodeNumber<M>(step: Step<M>, m: M, field: nat, v: Uint64)
    requires field < 0x1000_0000
    ensures Decode(step, m, EncodeNumber(field, v)) == step(m, Record(field, 0, Number(v)))
  {
    NumberRecord(field, v, []);
    assert EncodeNumber(field, v) + [] == EncodeNumber(field, v);
    hide ReadRecord;
  }

  lemma DecodeChunk<M>(step: Step<M>, m: M, field: nat, b: Bytes)
    requires field < 0x1000_0000 && |b| < TWO_64
    ensures Decode(step, m, EncodeChunk(field, b)) == step(m, Record(field, 2, Chunk(b)))
  {
    ChunkRecord(field, b, []);
    assert EncodeChunk(field, b) + [] == EncodeChunk(field, b);
    hide ReadRecord;
  }

  lemma IntegerRoundTrip(v: Int64)
    ensures ToInt64(ToUint64(v)) == v && (ToUint64(v) == 0 <==> v == 0)
  {
  }

  lemma StatRoundTrip(m: Stat)
    ensures Decode(StatStep, NO_STAT, EncodeStat(m)) == (m, None)
  {
    IntegerRoundTrip(m.value);
    var named := Stat(m.name, 0);
    assert Decode(StatStep, NO_STAT, TextField(1, m.name)) == (named, None) by {
      DecodeChunk(StatStep, NO_STAT, 1, m.name);
    }
    DecodeAppend(StatStep, NO_STAT, TextField(1, m.name), NumberField(2, ToUint64(m.value)));
    DecodeNumber(StatStep, named, 2, ToUint64(m.value));
  }

  /** Whether a field occurs before the end or the first malformed field. */
  predicate Mentions(data: Bytes, n: nat, wire: nat)
    decreases |data|
  {
    data != [] && ReadRecord(data).Got? && (Is(ReadRecord(data).value, n, wire) || Mentions(ReadRecord(data).rest, n, wire))
  }

  /** What is decoded into two stats differs only where a field is not mentioned. */
  lemma {:induction false} StatFrom(a: Stat, b: Stat, data: Bytes)
    ensures var (from, err), (other, fault) := Decode(StatStep, a, data), Decode(StatStep, b, data);
      && err == fault
      && (if Mentions(data, 1, 2) then from.name == other.name else from.name == a.name && other.name == b.name)
      && (if Mentions(data, 2, 0) then from.value == other.value else from.value == a.value && other.value == b.value)
    decreases |data|
  {
    if data != [] && ReadRecord(data).Got? {
      hide ReadRecord;
      var r := ReadRecord(data);
      StatFrom(StatStep(a, r.value).0, StatStep(b, r.value).0, r.rest);
    }
  }

  /** Two stats in one response, whatever bytes they consist of: the second replaces
      the first. Embedded messages should be merged instead (Protocol Buffers Encoding,
      "Last One Wins"); the two agree exactly when the second mentions every field that
      the first has set. */
  lemma SecondStatReplaces(x: Bytes, y: Bytes)
    requires |x| < TWO_64 && |y| < TWO_64 && Decode(StatStep, NO_STAT, x).1.None?
    ensures var (second, err) := Decode(StatStep, NO_STAT, y);
            Decode(GetStatsResponseStep, GetStatsResponse(None), EncodeChunk(1, x) + EncodeChunk(1, y)) ==
            (GetStatsResponse(Some(second)), err)
    ensures var first := Decode(StatStep, NO_STAT, x).0;
            Decode(StatStep, first, y) == Decode(StatStep, NO_STAT, y) <==>
            (first.name == [] || Mentions(y, 1, 2)) && (first.value == 0 || Mentions(y, 2, 0))
  {
    var first := Decode(StatStep, NO_STAT, x).0;
    StatFrom(first, NO_STAT, y);
    StatField(GetStatsResponse(None), x);
    StatField(GetStatsResponse(Some(first)), y);
    hide Decode, EncodeChunk, Mentions;
    DecodeAppend(GetStatsResponseStep, GetStatsResponse(None), EncodeChunk(1, x), EncodeChunk(1, y));
  }

  lemma StatField(m: GetStatsResponse, x: Bytes)
    requires |x| < TWO_64
    ensures var (stat, err) := Decode(StatStep, NO_STAT, x);
            Decode(GetStatsResponseStep, m, EncodeChunk(1, x)) == (GetStatsResponse(Some(stat)), err)
  {
    ChunkRecord(1, x, []);
    assert EncodeChunk(1, x) + [] == EncodeChunk(1, x);
    hide StatStep;
  }

  // Fields that a message does not use.

  predicate StatUses(r: Record) { Is(r, 1, 2) || Is(r, 2, 0) }

  predicate GetStatsRequestUses(r: Record) { Is(r, 1, 2) || Is(r, 2, 0) }

  predicate GetStatsResponseUses(r: Record) { Is(r, 1, 2) }

  predicate QueryStatsRequestUses(r: Record) { Is(r, 1, 2) || Is(r, 2, 0) || Is(r, 3, 2) || Is(r, 4, 0) }

  predicate QueryStatsResponseUses(r: Record) { Is(r, 1, 2) }

  predicate SysStatsResponseUses(r: Record) { 1 <= r.field <= 10 && Is(r, r.field, 0) }

  function TextOf(r: Record): Text { if r.payload.Chunk? then AsText(r.payload.bytes) else [] }

  function NumberOf(r: Record): Uint64 { if r.payload.Number? then r.payload.v else 0 }

  /** A text other than the one that the field sets. */
  function OtherText(r: Record): Text { if TextOf(r) == [] then [0] else [] }

  /** A message ignores exactly the fields that differ from its own in number or in
      wire type. */
  lemma UsedFields(r: Record)
    ensures (forall m :: StatStep(m, r) == (m, None)) <==> !StatUses(r)
    ensures (forall m :: GetStatsRequestStep(m, r) == (m, None)) <==> !GetStatsRequestUses(r)
    ensures (forall m :: GetStatsResponseStep(m, r) == (m, None)) <==> !GetStatsResponseUses(r)
    ensures (forall m :: QueryStatsRequestStep(m, r) == (m, None)) <==> !QueryStatsRequestUses(r)
    ensures (forall m :: QueryStatsResponseStep(m, r) == (m, None)) <==> !QueryStatsResponseUses(r)
    ensures (forall m :: SysStatsResponseStep(m, r) == (m, None)) <==> !SysStatsResponseUses(r)
  {
    hide Decode;
    var text, flag := OtherText(r), NumberOf(r) == 0;
    var stat := Stat(text, if ToInt64(NumberOf(r)) == 0 then 1 else 0);
    assert StatUses(r) ==> StatStep(stat, r) != (stat, None);
    var request := GetStatsRequest(text, flag);
    assert GetStatsRequestUses(r) ==> GetStatsRequestStep(request, r) != (request, None);
    var response := GetStatsResponse(None);
    assert GetStatsResponseUses(r) ==> GetStatsResponseStep(response, r) != (response, None);
    var query := QueryStatsRequest(text, flag, [], flag);
    assert QueryStatsRequestUses(r) ==> QueryStatsRequestStep(query, r) != (query, None) by {
      if Is(r, 3, 2) { assert QueryStatsRequestStep(query, r).0.patterns == [TextOf(r)]; }
    }
    var answer := QueryStatsResponse([]);
    assert QueryStatsResponseUses(r) ==> QueryStatsResponseStep(answer, r) != (answer, None);
    SysStatsUsed(r);
  }

  lemma SysStatsUsed(r: Record)
    ensures (forall m :: SysStatsResponseStep(m, r) == (m, None)) <==> !SysStatsResponseUses(r)
  {
    var v := if NumberOf(r) % 0x1_0000_0000 == 0 then 1 else 0;
    var m := SysStatsResponse(v, v, v, v, v, v, v, v, v, v);
    assert SysStatsResponseUses(r) ==> SysStatsResponseStep(m, r) != (m, None);
  }

  /** Put between x and y, whatever these are, the field changes nothing. */
  ghost predicate Ignored<M(!new)>(step: Step<M>, x: Bytes, field: Bytes, y: Bytes) {
    forall m | Decode(step, m, x).1.None? :: Decode(step, m, x + field + y) == Decode(step, m, x + y)
  }

  lemma IgnoredByStep<M(!new)>(step: Step<M>, x: Bytes, field: Bytes, y: Bytes)
    requires ReadRecord(field).Got? && ReadRecord(field).rest == []
    requires forall m :: step(m, ReadRecord(field).value) == (m, None)
    ensures Ignored(step, x, field, y)
  {
    hide Decode, ReadRecord;
    forall m | Decode(step, m, x).1.None? ensures Decode(step, m, x + field + y) == Decode(step, m, x + y) {
      UnknownFieldIgnored(step, m, x, field, y);
    }
  }

  /** So a complete field that a message does not use, put at any field boundary,
      changes nothing; for the request without fields, any complete field. */
  lemma UnusedFieldIgnored(x: Bytes, field: Bytes, y: Bytes)
    requires ReadRecord(field).Got? && ReadRecord(field).rest == []
    ensures var r := ReadRecord(field).value;
      && (!StatUses(r) ==> Ignored(StatStep, x, field, y))
      && (!GetStatsRequestUses(r) ==> Ignored(GetStatsRequestStep, x, field, y))
      && (!GetStatsResponseUses(r) ==> Ignored(GetStatsResponseStep, x, field, y))
      && (!QueryStatsRequestUses(r) ==> Ignored(QueryStatsRequestStep, x, field, y))
      && (!QueryStatsResponseUses(r) ==> Ignored(QueryStatsResponseStep, x, field, y))
      && (!SysStatsResponseUses(r) ==> Ignored(SysStatsResponseStep, x, field, y))
      && Ignored(SysStatsRequestStep, x, field, y)
  {
    var r := ReadRecord(field).value;
    UsedFields(r);
    hide ReadRecord, StatStep, GetStatsRequestStep, GetStatsResponseStep, QueryStatsRequestStep, QueryStatsResponseStep,
         SysStatsResponseStep, Is, Ignored;
    if !StatUses(r) { IgnoredByStep(StatStep, x, field, y); }
    if !GetStatsRequestUses(r) { IgnoredByStep(GetStatsRequestStep, x, field, y); }
    if !GetStatsResponseUses(r) { IgnoredByStep(GetStatsResponseStep, x, field, y); }
    if !QueryStatsRequestUses(r) { IgnoredByStep(QueryStatsRequestStep, x, field, y); }
    if !QueryStatsResponseUses(r) { IgnoredByStep(QueryStatsResponseStep, x, field, y); }
    if !SysStatsResponseUses(r) { IgnoredByStep(SysStatsResponseStep, x, field, y); }
    forall m ensures SysStatsRequestStep(m, r) == (m, None) { NoFields(m); }
    IgnoredByStep(SysStatsRequestStep, x, field, y);
  }

  lemma NoFields(m: ())
    ensures m == ()
  {
  }

  lemma StatSize(m: Stat)
    ensures |EncodeStat(m)| < TWO_64
  {
    VarintAtMostTenBytes(1 * 8 + 2);
    VarintAtMostTenBytes(|m.name|);
    VarintAtMostTenBytes(2 * 8);
    VarintAtMostTenBytes(ToUint64(m.value));
  }

  lemma GetStatsRequestRoundTrip(m: GetStatsRequest)
    ensures Decode(GetStatsRequestStep, GetStatsRequest([], false), EncodeGetStatsRequest(m)) == (m, None)
  {
    var zero, named := GetStatsRequest([], false), GetStatsRequest(m.name, false);
    assert Decode(GetStatsRequestStep, zero, TextField(1, m.name)) == (named, None) by {
      DecodeChunk(GetStatsRequestStep, zero, 1, m.name);
    }
    DecodeAppend(GetStatsRequestStep, zero, TextField(1, m.name), BoolField(2, m.reset));
    DecodeNumber(GetStatsRequestStep, named, 2, 1);
  }

  lemma GetStatsResponseRoundTrip(m: GetStatsResponse)
    ensures Decode(GetStatsResponseStep, GetStatsResponse(None), EncodeGetStatsResponse(m)) == (m, None)
  {
    if m.stat.Some? {
      StatRoundTrip(m.stat.value);
      StatSize(m.stat.value);
      DecodeChunk(GetStatsResponseStep, GetStatsResponse(None), 1, EncodeStat(m.stat.value));
    }
  }

  lemma {:induction false} PatternsRoundTrip(m: QueryStatsRequest, patterns: seq<Text>)
    requires m.patterns == []
    ensures Decode(QueryStatsRequestStep, m, EncodePatterns(patterns)) == (m.(patterns := patterns), None)
  {
    if patterns != [] {
      var front, last := patterns[..|patterns| - 1], patterns[|patterns| - 1];
      PatternsRoundTrip(m, front);
      DecodeAppend(QueryStatsRequestStep, m, EncodePatterns(front), EncodeChunk(3, last));
      DecodeChunk(QueryStatsRequestStep, m.(patterns := front), 3, last);
      assert front + [last] == patterns;
    }
  }

  lemma QueryStatsRequestRoundTrip(m: QueryStatsRequest)
    ensures Decode(QueryStatsRequestStep, QueryStatsRequest([], false, [], false), EncodeQueryStatsRequest(m)) == (m, None)
  {
    var zero := QueryStatsRequest([], false, [], false);
    var a, b, c := zero.(pattern := m.pattern), zero.(pattern := m.pattern, reset := m.reset), m.(regexp := false);
    var x, y, z, w := TextField(1, m.pattern), BoolField(2, m.reset), EncodePatterns(m.patterns), BoolField(4, m.regexp);
    assert Decode(QueryStatsRequestStep, zero, x) == (a, None) by {
      DecodeChunk(QueryStatsRequestStep, zero, 1, m.pattern);
    }
    assert Decode(QueryStatsRequestStep, a, y) == (b, None) by {
      DecodeNumber(QueryStatsRequestStep, a, 2, 1);
    }
    PatternsRoundTrip(b, m.patterns);
    assert Decode(QueryStatsRequestStep, c, w) == (m, None) by {
      DecodeNumber(QueryStatsRequestStep, c, 4, 1);
    }
    hide Decode, TextField, BoolField, EncodePatterns;
    DecodeAppend(QueryStatsRequestStep, zero, x, y);
    DecodeAppend(QueryStatsRequestStep, zero, x + y, z);
    DecodeAppend(QueryStatsRequestStep, zero, x + y + z, w);
  }

  lemma StatAppended(before: Bytes, stats: seq<Stat>, last: Stat)
    requires Decode(QueryStatsResponseStep, QueryStatsResponse([]), before) == (QueryStatsResponse(stats), None)
    ensures Decode(QueryStatsResponseStep, QueryStatsResponse([]), before + EncodeChunk(1, EncodeStat(last))) ==
            (QueryStatsResponse(stats + [last]), None)
  {
    hide Decode, EncodeChunk, EncodeStat;
    StatRoundTrip(last);
    StatSize(last);
    DecodeAppend(QueryStatsResponseStep, QueryStatsResponse([]), before, EncodeChunk(1, EncodeStat(last)));
    DecodeChunk(QueryStatsResponseStep, QueryStatsResponse(stats), 1, EncodeStat(last));
  }

  lemma {:induction false} QueryStatsResponseRoundTrip(stats: seq<Stat>)
    ensures Decode(QueryStatsResponseStep, QueryStatsResponse([]), EncodeStats(stats)) == (QueryStatsResponse(stats), None)
  {
    if stats != [] {
      hide Decode, EncodeChunk, EncodeStat, QueryStatsResponseStep;
      var front, last := stats[..|stats| - 1], stats[|stats| - 1];
      assert EncodeStats(stats) == EncodeStats(front) + EncodeChunk(1, EncodeStat(last));
      assert front + [last] == stats;
      hide EncodeStats;
      QueryStatsResponseRoundTrip(front);
      StatAppended(EncodeStats(front), front, last);
    }
  }

  /** A numeric field set by its number. */
  function With(m: SysStatsResponse, field: nat, v: Uint64): SysStatsResponse
    requires field in {1, 2, 10} ==> v < 0x1_0000_0000
  {
    match field
    case 1 => m.(numGoroutine := v)
    case 2 => m.(numGC := v)
    case 3 => m.(alloc := v)
    case 4 => m.(totalAlloc := v)
    case 5 => m.(sys := v)
    case 6 => m.(mallocs := v)
    case 7 => m.(frees := v)
    case 8 => m.(liveObjects := v)
    case 9 => m.(pauseTotalNs := v)
    case 10 => m.(uptime := v)
    case _ => m
  }

  /** The value of a numeric field by its number. */
  function FieldOf(m: SysStatsResponse, field: nat): Uint64 {
    match field
    case 1 => m.numGoroutine
    case 2 => m.numGC
    case 3 => m.alloc
    case 4 => m.totalAlloc
    case 5 => m.sys
    case 6 => m.mallocs
    case 7 => m.frees
    case 8 => m.liveObjects
    case 9 => m.pauseTotalNs
    case 10 => m.uptime
    case _ => 0
  }

  /** The message with only its first fields, and their encoding. */
  function Upto(m: SysStatsResponse, n: nat): SysStatsResponse
    requires n <= 10
  {
    if n == 0 then NO_SYS_STATS else With(Upto(m, n - 1), n, FieldOf(m, n))
  }

  function EncodeUpto(m: SysStatsResponse, n: nat): Bytes {
    if n == 0 then [] else EncodeUpto(m, n - 1) + NumberField(n, FieldOf(m, n))
  }

  lemma {:induction false} LaterFieldsZero(m: SysStatsResponse, n: nat, field: nat)
    requires n < field <= 10
    ensures FieldOf(Upto(m, n), field) == 0
  {
    if n > 0 { LaterFieldsZero(m, n - 1, field); }
  }

  /** One more numeric field behind what is decoded already. */
  lemma NumberFieldDecodes(before: Bytes, m: SysStatsResponse, field: nat, v: Uint64)
    requires Decode(SysStatsResponseStep, NO_SYS_STATS, before) == (m, None)
    requires 1 <= field <= 10 && FieldOf(m, field) == 0 && (field in {1, 2, 10} ==> v < 0x1_0000_0000)
    ensures Decode(SysStatsResponseStep, NO_SYS_STATS, before + NumberField(field, v)) == (With(m, field, v), None)
  {
    SetField(m, field, v);
    hide With, FieldOf, SysStatsResponseStep, ReadRecord, EncodeNumber;
    DecodeAppend(SysStatsResponseStep, NO_SYS_STATS, before, NumberField(field, v));
    DecodeNumber(SysStatsResponseStep, m, field, v);
  }

  lemma {:induction false} UptoRoundTrip(m: SysStatsResponse, n: nat)
    requires n <= 10
    ensures Decode(SysStatsResponseStep, NO_SYS_STATS, EncodeUpto(m, n)) == (Upto(m, n), None)
  {
    if n == 0 {
      NoFieldsYet(m);
    } else {
      hide Decode, Upto, EncodeUpto;
      UptoRoundTrip(m, n - 1);
      OneFieldDecodes(m, n);
    }
  }

  lemma NoFieldsYet(m: SysStatsResponse)
    ensures Decode(SysStatsResponseStep, NO_SYS_STATS, EncodeUpto(m, 0)) == (Upto(m, 0), None)
  {
    hide SysStatsResponseStep, ReadRecord;
    assert EncodeUpto(m, 0) == [];
  }

  lemma OneFieldDecodes(m: SysStatsResponse, n: nat)
    requires 0 < n <= 10
    requires Decode(SysStatsResponseStep, NO_SYS_STATS, EncodeUpto(m, n - 1)) == (Upto(m, n - 1), None)
    ensures Decode(SysStatsResponseStep, NO_SYS_STATS, EncodeUpto(m, n)) == (Upto(m, n), None)
  {
    hide Decode, With, NumberField, Upto, EncodeUpto, FieldOf, SysStatsResponseStep;
    FieldFits(m, n);
    OneFieldMore(m, n);
    LaterFieldsZero(m, n - 1, n);
    NumberFieldDecodes(EncodeUpto(m, n - 1), Upto(m, n - 1), n, FieldOf(m, n));
  }

  lemma OneFieldMore(m: SysStatsResponse, n: nat)
    requires 0 < n <= 10 && (n in {1, 2, 10} ==> FieldOf(m, n) < 0x1_0000_0000)
    ensures EncodeUpto(m, n) == EncodeUpto(m, n - 1) + NumberField(n, FieldOf(m, n))
    ensures Upto(m, n) == With(Upto(m, n - 1), n, FieldOf(m, n))
  {
    hide With, NumberField, FieldOf;
  }

  lemma FieldFits(m: SysStatsResponse, field: nat)
    ensures field in {1, 2, 10} ==> FieldOf(m, field) < 0x1_0000_0000
  {
  }

  lemma SetField(m: SysStatsResponse, field: nat, v: Uint64)
    requires 1 <= field <= 10 && FieldOf(m, field) == 0 && (field in {1, 2, 10} ==> v < 0x1_0000_0000)
    ensures SysStatsResponseStep(m, Record(field, 0, Number(v))) == (With(m, field, v), None)
    ensures v == 0 ==> With(m, field, v) == m
  {
  }

  lemma {:induction false} UptoHolds(m: SysStatsResponse, n: nat, field: nat)
    requires 1 <= field <= n <= 10
    ensures FieldOf(Upto(m, n), field) == FieldOf(m, field)
  {
    if field < n { UptoHolds(m, n - 1, field); }
  }

  lemma AllFields(m: SysStatsResponse)
    ensures Upto(m, 10) == m
  {
    UptoHolds(m, 10, 1); UptoHolds(m, 10, 2); UptoHolds(m, 10, 3); UptoHolds(m, 10, 4); UptoHolds(m, 10, 5);
    UptoHolds(m, 10, 6); UptoHolds(m, 10, 7); UptoHolds(m, 10, 8); UptoHolds(m, 10, 9); UptoHolds(m, 10, 10);
    hide Upto;
  }

  lemma SysStatsResponseRoundTrip(m: SysStatsResponse)
    ensures Decode(SysStatsResponseStep, NO_SYS_STATS, EncodeSysStatsResponse(m)) == (m, None)
  {
    UptoRoundTrip(m, 10);
    AllFields(m);
  }
}
