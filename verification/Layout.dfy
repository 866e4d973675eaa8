/** The bytes of the messages: the tag in front of every field, what is written under it
    and what any value read under it means. */
module Layout {
  import opened Wrappers
  import opened Wire
  import opened Messages

  /** A length and so many bytes behind the tag; nothing for no bytes. */
  function Bytewise(tag: Byte, b: Bytes): Bytes {
    if b == [] then [] else [tag] + EncodeVarint(|b|) + b
  }

  /** A varint behind the tag; nothing for zero. */
  function Numeric(tag: Byte, v: nat): Bytes {
    if v == 0 then [] else [tag] + EncodeVarint(v)
  }

  /** One after the other, each behind the tag, even those without bytes. */
  function Each(tag: Byte, items: seq<Bytes>): Bytes {
    if items == [] then [] else [tag] + EncodeVarint(|items[0]|) + items[0] + Each(tag, items[1..])
  }

  lemma TagByte(field: nat, wire: nat)
    requires field < 16 && wire < 8
    ensures EncodeTag(field, wire) == [field * 8 + wire]
  {
  }

  lemma ChunkBytes(field: nat, b: Bytes)
    requires 0 < field < 16
    ensures EncodeChunk(field, b) == [field * 8 + 2] + EncodeVarint(|b|) + b
  {
    TagByte(field, 2);
  }

  lemma NumberBytes(field: nat, v: Uint64)
    requires 0 < field < 16
    ensures EncodeNumber(field, v) == [field * 8] + EncodeVarint(v)
    ensures NumberField(field, v) == Numeric(field * 8, v)
    ensures BoolField(field, v == 1) == if v == 1 then [field * 8, 1] else []
  {
    TagByte(field, 0);
    assert EncodeVarint(1) == [1];
  }

  lemma {:induction false} EachSnoc(tag: Byte, items: seq<Bytes>, last: Bytes)
    ensures Each(tag, items + [last]) == Each(tag, items) + ([tag] + EncodeVarint(|last|) + last)
  {
    hide EncodeVarint;
    if items == [] {
      assert ([] + [last])[1..] == [];
    } else {
      assert (items + [last])[1..] == items[1..] + [last];
      EachSnoc(tag, items[1..], last);
    }
  }

  // What is written.

  /** Negative values are written as the 64-bit number with the same bits. */
  lemma StatWritten(m: Stat)
    ensures EncodeStat(m) == Bytewise(10, m.name) + Numeric(16, m.value % TWO_64)
  {
    ChunkBytes(1, m.name);
    NumberBytes(2, ToUint64(m.value));
  }

  lemma GetStatsRequestWritten(m: GetStatsRequest)
    ensures EncodeGetStatsRequest(m) == Bytewise(10, m.name) + if m.reset then [16, 1] else []
  {
    ChunkBytes(1, m.name);
    NumberBytes(2, 1);
  }

  lemma GetStatsResponseWritten(m: GetStatsResponse)
    ensures EncodeGetStatsResponse(m) == if m.stat.None? then [] else Each(10, [EncodeStat(m.stat.value)])
  {
    if m.stat.Some? {
      var stat := EncodeStat(m.stat.value);
      ChunkBytes(1, stat);
      EachSnoc(10, [], stat);
      assert [] + [stat] == [stat];
    }
  }

  lemma {:induction false} PatternsWritten(patterns: seq<Text>)
    ensures EncodePatterns(patterns) == Each(26, patterns)
  {
    if patterns != [] {
      var front, last := patterns[..|patterns| - 1], patterns[|patterns| - 1];
      PatternsWritten(front);
      EachSnoc(26, front, last);
      ChunkBytes(3, last);
      assert front + [last] == patterns;
      hide EncodeVarint, Each;
    }
  }

  lemma QueryStatsRequestWritten(m: QueryStatsRequest)
    ensures EncodeQueryStatsRequest(m) ==
            Bytewise(10, m.pattern) + (if m.reset then [16, 1] else []) + Each(26, m.patterns) + if m.regexp then [32, 1] else []
  {
    ChunkBytes(1, m.pattern);
    NumberBytes(2, 1);
    NumberBytes(4, 1);
    PatternsWritten(m.patterns);
    hide EncodeVarint, Each, EncodePatterns;
  }

  function StatBytes(stats: seq<Stat>): seq<Bytes> {
    seq(|stats|, i requires 0 <= i < |stats| => EncodeStat(stats[i]))
  }

  lemma {:induction false} QueryStatsResponseWritten(stats: seq<Stat>)
    ensures EncodeStats(stats) == Each(10, StatBytes(stats))
  {
    if stats != [] {
      var front, last := stats[..|stats| - 1], stats[|stats| - 1];
      assert StatBytes(stats) == StatBytes(front) + [EncodeStat(last)];
      hide EncodeVarint, EncodeStat, Each, EncodeChunk, StatBytes;
      QueryStatsResponseWritten(front);
      ChunkBytes(1, EncodeStat(last));
      EachSnoc(10, StatBytes(front), EncodeStat(last));
    }
  }

  lemma SysStatsResponseWritten(m: SysStatsResponse)
    ensures EncodeSysStatsResponse(m) ==
            Numeric(8, m.numGoroutine) + Numeric(16, m.numGC) + Numeric(24, m.alloc) + Numeric(32, m.totalAlloc) +
            Numeric(40, m.sys) + Numeric(48, m.mallocs) + Numeric(56, m.frees) + Numeric(64, m.liveObjects) +
            Numeric(72, m.pauseTotalNs) + Numeric(80, m.uptime)
  {
    hide Numeric;
    assert EncodeUpto(m, 0) == [] && [] + Numeric(8, m.numGoroutine) == Numeric(8, m.numGoroutine);
    FieldWritten(m, 1);
    FieldWritten(m, 2);
    FieldWritten(m, 3);
    FieldWritten(m, 4);
    FieldWritten(m, 5);
    FieldWritten(m, 6);
    FieldWritten(m, 7);
    FieldWritten(m, 8);
    FieldWritten(m, 9);
    FieldWritten(m, 10);
    hide EncodeUpto;
  }

  lemma FieldWritten(m: SysStatsResponse, n: nat)
    requires 0 < n <= 10
    ensures EncodeUpto(m, n) == EncodeUpto(m, n - 1) + Numeric(n * 8, FieldOf(m, n))
  {
    NumberBytes(n, FieldOf(m, n));
    hide NumberField, Numeric, FieldOf;
  }

  // What is read.

  lemma NumberRead<M>(step: Step<M>, m: M, field: nat, v: Uint64)
    requires 0 < field < 16
    ensures Decode(step, m, [field * 8] + EncodeVarint(v)) == step(m, Record(field, 0, Number(v)))
  {
    NumberBytes(field, v);
    hide Decode, EncodeNumber, EncodeVarint;
    DecodeNumber(step, m, field, v);
  }

  lemma ChunkRead<M>(step: Step<M>, m: M, field: nat, b: Text)
    requires 0 < field < 16
    ensures Decode(step, m, [field * 8 + 2] + EncodeVarint(|b|) + b) == step(m, Record(field, 2, Chunk(b)))
  {
    ChunkBytes(field, b);
    hide Decode, EncodeChunk, EncodeVarint;
    DecodeChunk(step, m, field, b);
  }

  /** A varint under the tag of a field sets it, whatever the number: every number but
      zero is true, and a stat has the signed value of the same bits. */
  lemma NumbersRead(s: Stat, g: GetStatsRequest, q: QueryStatsRequest, v: Uint64)
    ensures Decode(StatStep, s, [16] + EncodeVarint(v)) ==
            (s.(value := if v < 0x8000_0000_0000_0000 then v else v - TWO_64), None)
    ensures Decode(GetStatsRequestStep, g, [16] + EncodeVarint(v)) == (g.(reset := v != 0), None)
    ensures Decode(QueryStatsRequestStep, q, [16] + EncodeVarint(v)) == (q.(reset := v != 0), None)
    ensures Decode(QueryStatsRequestStep, q, [32] + EncodeVarint(v)) == (q.(regexp := v != 0), None)
  {
    hide Decode, EncodeVarint;
    NumberRead(StatStep, s, 2, v);
    NumberRead(GetStatsRequestStep, g, 2, v);
    NumberRead(QueryStatsRequestStep, q, 2, v);
    NumberRead(QueryStatsRequestStep, q, 4, v);
  }

  /** The response with the field of this tag set; the 32-bit fields keep the low half. */
  function Told(m: SysStatsResponse, tag: Byte, v: Uint64): SysStatsResponse {
    match tag
    case 8 => m.(numGoroutine := v % 0x1_0000_0000)
    case 16 => m.(numGC := v % 0x1_0000_0000)
    case 24 => m.(alloc := v)
    case 32 => m.(totalAlloc := v)
    case 40 => m.(sys := v)
    case 48 => m.(mallocs := v)
    case 56 => m.(frees := v)
    case 64 => m.(liveObjects := v)
    case 72 => m.(pauseTotalNs := v)
    case 80 => m.(uptime := v % 0x1_0000_0000)
    case _ => m
  }

  lemma SysNumberRead(m: SysStatsResponse, field: nat, v: Uint64)
    requires 0 < field < 16
    ensures Decode(SysStatsResponseStep, m, [field * 8] + EncodeVarint(v)) == (Told(m, field * 8, v), None)
  {
    hide Decode, EncodeVarint, SysStatsResponseStep, Told;
    NumberRead(SysStatsResponseStep, m, field, v);
    ToldByStep(m, field, v);
  }

  lemma ToldByStep(m: SysStatsResponse, field: nat, v: Uint64)
    requires 0 < field < 16
    ensures SysStatsResponseStep(m, Record(field, 0, Number(v))) == (Told(m, field * 8, v), None)
  {
    assert field * 8 in {8, 16, 24, 32, 40, 48, 56, 64, 72, 80} ==> field <= 10;
  }

  /** Bytes under the tag of a text replace it, or are added to the patterns. */
  lemma TextsRead(s: Stat, g: GetStatsRequest, q: QueryStatsRequest, b: Text)
    ensures var length := EncodeVarint(|b|);
      && Decode(StatStep, s, [10] + length + b) == (s.(name := b), None)
      && Decode(GetStatsRequestStep, g, [10] + length + b) == (g.(name := b), None)
      && Decode(QueryStatsRequestStep, q, [10] + length + b) == (q.(pattern := b), None)
      && Decode(QueryStatsRequestStep, q, [26] + length + b) == (q.(patterns := q.patterns + [b]), None)
  {
    hide Decode, EncodeVarint;
    ChunkRead(StatStep, s, 1, b);
    ChunkRead(GetStatsRequestStep, g, 1, b);
    ChunkRead(QueryStatsRequestStep, q, 1, b);
    ChunkRead(QueryStatsRequestStep, q, 3, b);
  }

  /** Bytes under the tag of a stat are read as one from nothing. A malformed one is an
      error, which leaves what was read of it in the response to GetStats and nothing in
      that to QueryStats. */
  lemma StatsRead(g: GetStatsResponse, q: QueryStatsResponse, b: Text)
    ensures var field := [10] + EncodeVarint(|b|) + b;
            var (stat, err) := Decode(StatStep, Stat([], 0), b);
      && Decode(GetStatsResponseStep, g, field) == (GetStatsResponse(Some(stat)), err)
      && Decode(QueryStatsResponseStep, q, field) == (if err.Some? then q else QueryStatsResponse(q.stats + [stat]), err)
  {
    hide Decode, EncodeVarint;
    ChunkRead(GetStatsResponseStep, g, 1, b);
    ChunkRead(QueryStatsResponseStep, q, 1, b);
  }
}
