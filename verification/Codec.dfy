/** The message types as the RPC code uses them: objects whose fields Unmarshal sets
    one by one and Marshal writes out. */
module Codec {
  import opened Wrappers
  import opened Wire
  import opened Messages

  method AppendTag(b: Bytes, field: nat, wire: nat) returns (r: Bytes)
    requires field < 0x1000_0000 && wire < 8
    ensures r == b + EncodeTag(field, wire)
  {
    r := AppendVarint(b, field * 8 + wire);
  }

  /** appendStringElement and appendMessageField. */
  method AppendChunk(b: Bytes, field: nat, s: Bytes) returns (r: Bytes)
    requires field < 0x1000_0000 && |s| < TWO_64
    ensures r == b + EncodeChunk(field, s)
  {
    r := AppendTag(b, field, 2);
    r := AppendVarint(r, |s|);
    r := r + s;
  }

  method AppendStringField(b: Bytes, field: nat, s: Text) returns (r: Bytes)
    requires field < 0x1000_0000
    ensures r == b + TextField(field, s)
  {
    if s == [] { return b; }
    r := AppendChunk(b, field, s);
  }

  method AppendBoolField(b: Bytes, field: nat, v: bool) returns (r: Bytes)
    requires field < 0x1000_0000
    ensures r == b + BoolField(field, v)
  {
    if !v { return b; }
    r := AppendTag(b, field, 0);
    r := AppendVarint(r, 1);
  }

  /** appendUint64Field; appendInt64Field is this on uint64(v). */
  method AppendUint64Field(b: Bytes, field: nat, v: Uint64) returns (r: Bytes)
    requires field < 0x1000_0000
    ensures r == b + NumberField(field, v)
  {
    if v == 0 { return b; }
    r := AppendTag(b, field, 0);
    r := AppendVarint(r, v);
  }

  method AppendPatterns(b: Bytes, patterns: seq<Text>) returns (r: Bytes)
    ensures r == b + EncodePatterns(patterns)
  {
    r := b;
    for i := 0 to |patterns|
      invariant r == b + EncodePatterns(patterns[..i])
    {
      assert patterns[..i + 1][..i] == patterns[..i];
      r := AppendChunk(r, 3, patterns[i]);
    }
    assert patterns[..|patterns|] == patterns;
  }

  class StatMessage {
    var name: Text
    var value: Int64

    constructor ()
      ensures Value() == NO_STAT
    {
      name, value := [], 0;
    }

    function Value(): Stat
      reads this
    {
      Stat(name, value)
    }

    method Marshal() returns (b: Bytes)
      ensures b == EncodeStat(Value())
    {
      b := AppendStringField([], 1, name);
      b := AppendUint64Field(b, 2, ToUint64(value));
    }

    method Unmarshal(data: Bytes) returns (err: Option<Error>)
      modifies this
      ensures (Value(), err) == Decode(StatStep, old(Value()), data)
    {
      var d := new Decoder(data);
      while |d.data| > 0
        invariant fresh(d)
        invariant Decode(StatStep, Value(), d.data) == Decode(StatStep, old(Value()), data)
        decreases |d.data|
      {
        var tag, e := d.Varint();
        if e.Some? { return e; }
        var field, wire := tag / 8, tag % 8;
        if field == 1 && wire == 2 {
          var v, e := d.Bytes();
          if e.Some? { return e; }
          name := AsText(v);
        } else if field == 2 && wire == 0 {
          var v, e := d.Varint();
          if e.Some? { return e; }
          value := ToInt64(v);
        } else {
          e := d.Skip(wire);
          if e.Some? { return e; }
        }
      }
      return None;
    }
  }

  class GetStatsRequestMessage {
    var name: Text
    var reset: bool

    constructor ()
      ensures Value() == GetStatsRequest([], false)
    {
      name, reset := [], false;
    }

    function Value(): GetStatsRequest
      reads this
    {
      GetStatsRequest(name, reset)
    }

    method Marshal() returns (b: Bytes)
      ensures b == EncodeGetStatsRequest(Value())
    {
      b := AppendStringField([], 1, name);
      b := AppendBoolField(b, 2, reset);
    }

    method Unmarshal(data: Bytes) returns (err: Option<Error>)
      modifies this
      ensures (Value(), err) == Decode(GetStatsRequestStep, old(Value()), data)
    {
      var d := new Decoder(data);
      while |d.data| > 0
        invariant fresh(d)
        invariant Decode(GetStatsRequestStep, Value(), d.data) == Decode(GetStatsRequestStep, old(Value()), data)
        decreases |d.data|
      {
        var tag, e := d.Varint();
        if e.Some? { return e; }
        var field, wire := tag / 8, tag % 8;
        if field == 1 && wire == 2 {
          var v, e := d.Bytes();
          if e.Some? { return e; }
          name := AsText(v);
        } else if field == 2 && wire == 0 {
          var v, e := d.Varint();
          if e.Some? { return e; }
          reset := v != 0;
        } else {
          e := d.Skip(wire);
          if e.Some? { return e; }
        }
      }
      return None;
    }
  }

  class GetStatsResponseMessage {
    var stat: Option<Stat>

    constructor ()
      ensures Value() == GetStatsResponse(None)
    {
      stat := None;
    }

    function Value(): GetStatsResponse
      reads this
    {
      GetStatsResponse(stat)
    }

    method Marshal() returns (b: Bytes)
      ensures b == EncodeGetStatsResponse(Value())
    {
      b := [];
      if stat.Some? {
        StatSize(stat.value);
        b := AppendChunk(b, 1, EncodeStat(stat.value));
      }
    }

    method Unmarshal(data: Bytes) returns (err: Option<Error>)
      modifies this
      ensures (Value(), err) == Decode(GetStatsResponseStep, old(Value()), data)
    {
      var d := new Decoder(data);
      while |d.data| > 0
        invariant fresh(d)
        invariant Decode(GetStatsResponseStep, Value(), d.data) == Decode(GetStatsResponseStep, old(Value()), data)
        decreases |d.data|
      {
        var tag, e := d.Varint();
        if e.Some? { return e; }
        var field, wire := tag / 8, tag % 8;
        if field == 1 && wire == 2 {
          var v, e := d.Bytes();
          if e.Some? { return e; }
          var nested := new StatMessage();
          e := nested.Unmarshal(v);
          stat := Some(nested.Value());
          if e.Some? { return e; }
        } else {
          e := d.Skip(wire);
          if e.Some? { return e; }
        }
      }
      return None;
    }
  }

  class QueryStatsRequestMessage {
    var pattern: Text
    var reset: bool
    var patterns: seq<Text>
    var regexp: bool

    constructor ()
      ensures Value() == QueryStatsRequest([], false, [], false)
    {
      pattern, reset, patterns, regexp := [], false, [], false;
    }

    function Value(): QueryStatsRequest
      reads this
    {
      QueryStatsRequest(pattern, reset, patterns, regexp)
    }

    method Marshal() returns (b: Bytes)
      ensures b == EncodeQueryStatsRequest(Value())
    {
      hide TextField, BoolField, EncodePatterns;
      b := AppendStringField([], 1, pattern);
      b := AppendBoolField(b, 2, reset);
      b := AppendPatterns(b, patterns);
      b := AppendBoolField(b, 4, regexp);
    }

    method Unmarshal(data: Bytes) returns (err: Option<Error>)
      modifies this
      ensures (Value(), err) == Decode(QueryStatsRequestStep, old(Value()), data)
    {
      var d := new Decoder(data);
      while |d.data| > 0
        invariant fresh(d)
        invariant Decode(QueryStatsRequestStep, Value(), d.data) == Decode(QueryStatsRequestStep, old(Value()), data)
        decreases |d.data|
      {
        var tag, e := d.Varint();
        if e.Some? { return e; }
        var field, wire := tag / 8, tag % 8;
        if field == 1 && wire == 2 {
          var v, e := d.Bytes();
          if e.Some? { return e; }
          pattern := AsText(v);
        } else if field == 2 && wire == 0 {
          var v, e := d.Varint();
          if e.Some? { return e; }
          reset := v != 0;
        } else if field == 3 && wire == 2 {
          var v, e := d.Bytes();
          if e.Some? { return e; }
          patterns := patterns + [AsText(v)];
        } else if field == 4 && wire == 0 {
          var v, e := d.Varint();
          if e.Some? { return e; }
          regexp := v != 0;
        } else {
          e := d.Skip(wire);
          if e.Some? { return e; }
        }
      }
      return None;
    }
  }

  class QueryStatsResponseMessage {
    var stats: seq<Stat>

    constructor ()
      ensures Value() == QueryStatsResponse([])
    {
      stats := [];
    }

    function Value(): QueryStatsResponse
      reads this
    {
      QueryStatsResponse(stats)
    }

    method Marshal() returns (b: Bytes)
      ensures b == EncodeStats(stats)
    {
      b := [];
      for i := 0 to |stats|
        invariant b == EncodeStats(stats[..i])
      {
        assert stats[..i + 1][..i] == stats[..i];
        StatSize(stats[i]);
        b := AppendChunk(b, 1, EncodeStat(stats[i]));
      }
      assert stats[..|stats|] == stats;
    }

    method Unmarshal(data: Bytes) returns (err: Option<Error>)
      modifies this
      ensures (Value(), err) == Decode(QueryStatsResponseStep, old(Value()), data)
    {
      var d := new Decoder(data);
      while |d.data| > 0
        invariant fresh(d)
        invariant Decode(QueryStatsResponseStep, Value(), d.data) == Decode(QueryStatsResponseStep, old(Value()), data)
        decreases |d.data|
      {
        var tag, e := d.Varint();
        if e.Some? { return e; }
        var field, wire := tag / 8, tag % 8;
        if field == 1 && wire == 2 {
          var v, e := d.Bytes();
          if e.Some? { return e; }
          var nested := new StatMessage();
          e := nested.Unmarshal(v);
          if e.Some? { return e; }
          stats := stats + [nested.Value()];
        } else {
          e := d.Skip(wire);
          if e.Some? { return e; }
        }
      }
      return None;
    }
  }

  class SysStatsRequestMessage {
    constructor () {
    }

    method Marshal() returns (b: Bytes)
      ensures Decode(SysStatsRequestStep, (), b) == ((), None)
      ensures b == []
    {
      b := [];
    }

    /** Accepts any well-formed fields and keeps none. */
    method Unmarshal(data: Bytes) returns (err: Option<Error>)
      ensures err == Decode(SysStatsRequestStep, (), data).1
    {
      var d := new Decoder(data);
      while |d.data| > 0
        invariant fresh(d)
        invariant Decode(SysStatsRequestStep, (), d.data) == Decode(SysStatsRequestStep, (), data)
        decreases |d.data|
      {
        var tag, e := d.Varint();
        if e.Some? { return e; }
        e := d.Skip(tag % 8);
        if e.Some? { return e; }
      }
      return None;
    }
  }

  class SysStatsResponseMessage {
    var numGoroutine: Uint32
    var numGC: Uint32
    var alloc: Uint64
    var totalAlloc: Uint64
    var sys: Uint64
    var mallocs: Uint64
    var frees: Uint64
    var liveObjects: Uint64
    var pauseTotalNs: Uint64
    var uptime: Uint32

    constructor ()
      ensures Value() == NO_SYS_STATS
    {
      numGoroutine, numGC, alloc, totalAlloc, sys := 0, 0, 0, 0, 0;
      mallocs, frees, liveObjects, pauseTotalNs, uptime := 0, 0, 0, 0, 0;
    }

    function Value(): SysStatsResponse
      reads this
    {
      SysStatsResponse(numGoroutine, numGC, alloc, totalAlloc, sys, mallocs, frees, liveObjects, pauseTotalNs, uptime)
    }

    method Marshal() returns (b: Bytes)
      ensures b == EncodeSysStatsResponse(Value())
    {
      hide NumberField;
      b := AppendUint64Field([], 1, numGoroutine);
      assert b == EncodeUpto(Value(), 1);
      b := AppendUint64Field(b, 2, numGC);
      assert b == EncodeUpto(Value(), 2);
      b := AppendUint64Field(b, 3, alloc);
      assert b == EncodeUpto(Value(), 3);
      b := AppendUint64Field(b, 4, totalAlloc);
      assert b == EncodeUpto(Value(), 4);
      b := AppendUint64Field(b, 5, sys);
      assert b == EncodeUpto(Value(), 5);
      b := AppendUint64Field(b, 6, mallocs);
      assert b == EncodeUpto(Value(), 6);
      b := AppendUint64Field(b, 7, frees);
      assert b == EncodeUpto(Value(), 7);
      b := AppendUint64Field(b, 8, liveObjects);
      assert b == EncodeUpto(Value(), 8);
      b := AppendUint64Field(b, 9, pauseTotalNs);
      assert b == EncodeUpto(Value(), 9);
      b := AppendUint64Field(b, 10, uptime);
    }

    method Unmarshal(data: Bytes) returns (err: Option<Error>)
      modifies this
      ensures (Value(), err) == Decode(SysStatsResponseStep, old(Value()), data)
    {
      var d := new Decoder(data);
      while |d.data| > 0
        invariant fresh(d)
        invariant Decode(SysStatsResponseStep, Value(), d.data) == Decode(SysStatsResponseStep, old(Value()), data)
        decreases |d.data|
      {
        var tag, e := d.Varint();
        if e.Some? { return e; }
        var field, wire := tag / 8, tag % 8;
        if wire != 0 {
          e := d.Skip(wire);
          if e.Some? { return e; }
          continue;
        }
        var v: Uint64;
        v, e := d.Varint();
        if e.Some? { return e; }
        Set(field, v);
      }
      return None;
    }

    /** The switch over the field number; uint32(v) keeps the low 32 bits. */
    method Set(field: nat, v: Uint64)
      modifies this
      ensures (Value(), None) == SysStatsResponseStep(old(Value()), Record(field, 0, Number(v)))
    {
      match field
      case 1 => numGoroutine := v % 0x1_0000_0000;
      case 2 => numGC := v % 0x1_0000_0000;
      case 3 => alloc := v;
      case 4 => totalAlloc := v;
      case 5 => sys := v;
      case 6 => mallocs := v;
      case 7 => frees := v;
      case 8 => liveObjects := v;
      case 9 => pauseTotalNs := v;
      case 10 => uptime := v % 0x1_0000_0000;
      case _ =>
    }
  }
}
