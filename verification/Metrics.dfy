/** Cumulative traffic counters over a source whose counters may restart at zero. */
module Metrics {
  datatype InboundStat = InboundStat(tag: string, kind: string, up: nat, down: nat, users: int, connections: int)

  function DeltaCounter(previous: nat, current: nat): nat {
    if current >= previous then current - previous else current
  }

  function Last(values: seq<nat>): nat {
    if values == [] then 0 else values[|values| - 1]
  }

  /** What the exported counter has been raised by over all observations. */
  function Exported(values: seq<nat>): nat {
    if values == [] then 0
    else
      var front := values[..|values| - 1];
      Exported(front) + DeltaCounter(Last(front), values[|values| - 1])
  }

  /** The values seen just before each detected restart. */
  function BeforeRestarts(values: seq<nat>): nat {
    if values == [] then 0
    else
      var front := values[..|values| - 1];
      BeforeRestarts(front) + if values[|values| - 1] < Last(front) then Last(front) else 0
  }

  /** The exported total is what the source shows plus what it showed before each
      of its restarts, and it never goes down. */
  lemma {:induction false} ExportedIsTotal(values: seq<nat>)
    ensures Exported(values) == Last(values) + BeforeRestarts(values)
    ensures values != [] ==> Exported(values[..|values| - 1]) <= Exported(values)
  {
    if values != [] {
      ExportedIsTotal(values[..|values| - 1]);
    }
  }

  /** The observations of one tag, in order, among all of a run. */
  function Observed(stats: seq<InboundStat>, tag: string, up: bool): seq<nat> {
    if stats == [] then []
    else
      var last := stats[|stats| - 1];
      Observed(stats[..|stats| - 1], tag, up) + if last.tag == tag && tag != "" then [if up then last.up else last.down] else []
  }

  /** The users gauge after a batch, by tag and type. */
  function UserGauges(stats: seq<InboundStat>): map<(string, string), int> {
    if stats == [] then map[]
    else
      var last := stats[|stats| - 1];
      var before := UserGauges(stats[..|stats| - 1]);
      if last.tag == "" then before else before[(last.tag, last.kind) := last.users]
  }

  function ConnectionGauges(stats: seq<InboundStat>): map<string, int> {
    if stats == [] then map[]
    else
      var last := stats[|stats| - 1];
      var before := ConnectionGauges(stats[..|stats| - 1]);
      if last.tag == "" then before else before[last.tag := last.connections]
  }

  /** Only inbounds of the batch have gauges, each that of its last observation in it. */
  lemma {:induction false} GaugesAreLast(stats: seq<InboundStat>, i: nat)
    requires i < |stats| && stats[i].tag != ""
    ensures (forall j | i < j < |stats| :: (stats[j].tag, stats[j].kind) != (stats[i].tag, stats[i].kind)) ==>
              (stats[i].tag, stats[i].kind) in UserGauges(stats) && UserGauges(stats)[(stats[i].tag, stats[i].kind)] == stats[i].users
    ensures (forall j | i < j < |stats| :: stats[j].tag != stats[i].tag) ==>
              stats[i].tag in ConnectionGauges(stats) && ConnectionGauges(stats)[stats[i].tag] == stats[i].connections
    ensures forall key | key in UserGauges(stats) :: exists k :: 0 <= k < |stats| && (stats[k].tag, stats[k].kind) == key && stats[k].tag != ""
    ensures forall key | key in ConnectionGauges(stats) :: exists k :: 0 <= k < |stats| && stats[k].tag == key != ""
    decreases |stats|
  {
    var front, last := stats[..|stats| - 1], stats[|stats| - 1];
    GaugesOfBatch(front);
    assert forall k | 0 <= k < |front| :: front[k] == stats[k];
    if i < |front| {
      GaugesAreLast(front, i);
    }
  }

  lemma {:induction false} GaugesOfBatch(stats: seq<InboundStat>)
    ensures forall key | key in UserGauges(stats) :: exists k :: 0 <= k < |stats| && (stats[k].tag, stats[k].kind) == key && stats[k].tag != ""
    ensures forall key | key in ConnectionGauges(stats) :: exists k :: 0 <= k < |stats| && stats[k].tag == key != ""
  {
    if stats != [] {
      var front := stats[..|stats| - 1];
      GaugesOfBatch(front);
      assert forall k | 0 <= k < |front| :: front[k] == stats[k];
    }
  }

  function At(m: map<string, nat>, tag: string): nat {
    if tag in m then m[tag] else 0
  }

  class Collector {
    var lastUp: map<string, nat>
    var lastDown: map<string, nat>
    var trafficUp: map<string, nat>
    var trafficDown: map<string, nat>
    var inboundUsers: map<(string, string), int>
    var inboundConnections: map<string, int>
    ghost var history: seq<InboundStat>

    /** For every tag the fields are those of its observations so far. */
    ghost predicate Valid()
      reads this
    {
      Tracks(lastUp, trafficUp, history, true) && Tracks(lastDown, trafficDown, history, false)
    }

    constructor ()
      ensures Valid() && history == []
    {
      lastUp, lastDown, trafficUp, trafficDown, history := map[], map[], map[], map[], [];
      inboundUsers, inboundConnections := map[], map[];
    }

    method ObserveInbounds(stats: seq<InboundStat>)
      requires Valid()
      modifies this
      ensures Valid() && history == old(history) + stats
      ensures inboundUsers == UserGauges(stats) && inboundConnections == ConnectionGauges(stats)
    {
      inboundUsers, inboundConnections := map[], map[];
      assert stats[..0] == [];
      for i := 0 to |stats|
        invariant Valid() && history == old(history) + stats[..i]
        invariant inboundUsers == UserGauges(stats[..i]) && inboundConnections == ConnectionGauges(stats[..i])
      {
        assert stats[..i + 1][..i] == stats[..i];
        assert old(history) + stats[..i + 1] == old(history) + stats[..i] + [stats[i]];
        ObserveOne(stats[i]);
      }
      assert stats[..|stats|] == stats;
    }

    method ObserveOne(stat: InboundStat)
      requires Valid()
      modifies this
      ensures Valid() && history == old(history) + [stat]
      ensures inboundUsers == if stat.tag == "" then old(inboundUsers) else old(inboundUsers)[(stat.tag, stat.kind) := stat.users]
      ensures inboundConnections == if stat.tag == "" then old(inboundConnections) else old(inboundConnections)[stat.tag := stat.connections]
    {
      hide Tracks;
      Observation(lastUp, trafficUp, history, stat, true);
      Observation(lastDown, trafficDown, history, stat, false);
      history := history + [stat];
      if stat.tag == "" {
        return;
      }
      inboundUsers := inboundUsers[(stat.tag, stat.kind) := stat.users];
      inboundConnections := inboundConnections[stat.tag := stat.connections];
      var upDelta := DeltaCounter(At(lastUp, stat.tag), stat.up);
      if upDelta > 0 {
        trafficUp := trafficUp[stat.tag := At(trafficUp, stat.tag) + upDelta];
      }
      lastUp := lastUp[stat.tag := stat.up];
      var downDelta := DeltaCounter(At(lastDown, stat.tag), stat.down);
      if downDelta > 0 {
        trafficDown := trafficDown[stat.tag := At(trafficDown, stat.tag) + downDelta];
      }
      lastDown := lastDown[stat.tag := stat.down];
    }
  }

  /** For every tag, its last value and its exported total in one direction. */
  ghost predicate Tracks(last: map<string, nat>, total: map<string, nat>, history: seq<InboundStat>, up: bool) {
    forall tag :: At(last, tag) == Last(Observed(history, tag, up)) && At(total, tag) == Exported(Observed(history, tag, up))
  }

  lemma Observation(last: map<string, nat>, total: map<string, nat>, history: seq<InboundStat>, stat: InboundStat, up: bool)
    requires Tracks(last, total, history, up)
    ensures stat.tag == "" ==> Tracks(last, total, history + [stat], up)
    ensures stat.tag != "" ==>
              var v := if up then stat.up else stat.down;
              var delta := DeltaCounter(At(last, stat.tag), v);
              Tracks(last[stat.tag := v], if delta > 0 then total[stat.tag := At(total, stat.tag) + delta] else total,
                     history + [stat], up)
  {
    hide Observed, Exported, Last;
    var v := if up then stat.up else stat.down;
    forall tag ensures Observed(history + [stat], tag, up) == Extended(Observed(history, tag, up), stat, tag, v) {
      ObservedSnoc(history, stat, tag, up);
    }
    ExportedSnoc(Observed(history, stat.tag, up), v);
  }

  function Extended(values: seq<nat>, stat: InboundStat, tag: string, v: nat): seq<nat> {
    if stat.tag == tag && tag != "" then values + [v] else values
  }

  lemma ExportedSnoc(values: seq<nat>, v: nat)
    ensures Exported(values + [v]) == Exported(values) + DeltaCounter(Last(values), v) && Last(values + [v]) == v
  {
    assert (values + [v])[..|values|] == values;
  }

  /** Traffic is counted by tag and direction; inbounds without a tag have none. */
  lemma {:induction false} ObservedExactly(history: seq<InboundStat>, tag: string)
    ensures tag == "" ==> Observed(history, tag, true) == Observed(history, tag, false) == []
    ensures tag != "" && (forall s | s in history :: s.tag == tag) ==>
              && Observed(history, tag, true) == seq(|history|, i requires 0 <= i < |history| => history[i].up)
              && Observed(history, tag, false) == seq(|history|, i requires 0 <= i < |history| => history[i].down)
    ensures forall other: InboundStat, up :: other.tag != tag ==> Observed(history + [other], tag, up) == Observed(history, tag, up)
  {
    forall other: InboundStat, up | other.tag != tag ensures Observed(history + [other], tag, up) == Observed(history, tag, up) {
      ObservedSnoc(history, other, tag, up);
    }
    if history != [] {
      var front := history[..|history| - 1];
      ObservedExactly(front, tag);
      assert forall s | s in front :: s in history;
      assert forall i | 0 <= i < |front| :: front[i] == history[i];
    }
  }

  lemma ObservedSnoc(history: seq<InboundStat>, stat: InboundStat, tag: string, up: bool)
    ensures Observed(history + [stat], tag, up)
         == Extended(Observed(history, tag, up), stat, tag, if up then stat.up else stat.down)
  {
    assert (history + [stat])[..|history|] == history;
  }
}
