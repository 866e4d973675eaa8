/** The registry of per-path mutexes: a lookup under the read lock, then on a miss
    a second lookup and an insertion under the write lock. Calls interleave between
    the two critical sections. */
module CfgLock {
  import opened Wrappers

  type Mutex = nat

  /** A call of For: before the first lookup, after a miss, or returned. Paths are
      the normalised ones. */
  datatype Call = Starting(path: string) | Missed(path: string) | Returned(path: string, mutex: Mutex)

  datatype State = State(registry: map<string, Mutex>, unused: Mutex, calls: seq<Call>)

  datatype Action = Enter(path: string) | LookUp(call: nat) | Insert(call: nat)

  function Next(s: State, a: Action): Option<State> {
    match a
    case Enter(path) => Some(s.(calls := s.calls + [Starting(path)]))
    case LookUp(i) =>
      if i < |s.calls| && s.calls[i].Starting? then
        var path := s.calls[i].path;
        Some(s.(calls := s.calls[i := if path in s.registry then Returned(path, s.registry[path]) else Missed(path)]))
      else None
    case Insert(i) =>
      if i < |s.calls| && s.calls[i].Missed? then
        var path := s.calls[i].path;
        if path in s.registry then Some(s.(calls := s.calls[i := Returned(path, s.registry[path])]))
        else Some(State(s.registry[path := s.unused], s.unused + 1, s.calls[i := Returned(path, s.unused)]))
      else None
  }

  function Run(actions: seq<Action>): Option<State>
    decreases |actions|
  {
    if actions == [] then Some(State(map[], 0, []))
    else
      var last := |actions| - 1;
      match Run(actions[..last])
      case None => None
      case Some(s) => Next(s, actions[last])
  }

  predicate Inv(s: State) {
    && (forall path | path in s.registry :: s.registry[path] < s.unused)
    && (forall a, b | a in s.registry && b in s.registry && s.registry[a] == s.registry[b] :: a == b)
    && (forall c | c in s.calls && c.Returned? :: c.path in s.registry && s.registry[c.path] == c.mutex)
  }

  lemma StepKeepsInv(s: State, a: Action)
    requires Inv(s) && Next(s, a).Some?
    ensures Inv(Next(s, a).value)
  {
    var t := Next(s, a).value;
    forall c | c in t.calls && c.Returned? ensures c.path in t.registry && t.registry[c.path] == c.mutex {
      var i :| 0 <= i < |t.calls| && t.calls[i] == c;
      if i < |s.calls| && t.calls[i] == s.calls[i] {
        assert s.calls[i] in s.calls;
      }
    }
  }

  lemma {:induction false} RunKeepsInv(actions: seq<Action>)
    requires Run(actions).Some?
    ensures Inv(Run(actions).value)
    decreases |actions|
  {
    if actions == [] {
      assert Run([]) == Some(State(map[], 0, []));
    } else {
      hide Inv, Next;
      RunKeepsInv(actions[..|actions| - 1]);
      StepKeepsInv(Run(actions[..|actions| - 1]).value, actions[|actions| - 1]);
    }
  }

  /** In every interleaving, two calls get the same mutex exactly when they name
      the same file. */
  lemma OneMutexPerPath(actions: seq<Action>, i: nat, j: nat)
    requires Run(actions).Some?
    requires var calls := Run(actions).value.calls;
             i < |calls| && j < |calls| && calls[i].Returned? && calls[j].Returned?
    ensures var calls := Run(actions).value.calls;
            calls[i].mutex == calls[j].mutex <==> calls[i].path == calls[j].path
  {
    RunKeepsInv(actions);
    var s := Run(actions).value;
    assert s.calls[i] in s.calls && s.calls[j] in s.calls;
  }
}
