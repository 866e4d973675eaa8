/** Two writers on one config file: the REST client, which arms a debounced
    reload after each write and may roll its window back, and the desired-state
    manager. A state machine over the steps between lock operations; a run is any
    interleaving of them. */
module Debounce {
  import opened Wrappers

  type Bytes = string

  /** What one writer computes from the bytes it loads; `None` when it returns an error. */
  type Edit = Bytes -> Option<Bytes>

  datatype Writer = Client | Manager

  /** One write to the file. A client write belongs to the window that is armed for
      it (0 until then); a restore names the window it rolls back and the positions
      of the writes from which that window has its bytes. */
  datatype Write =
    | Edited(who: Writer, edit: Edit, after: Bytes, window: nat)
    | Restored(window: nat, first: nat, last: nat, after: Bytes)

  /** debounceOriginal and debounceWritten, with the positions of the writes they come from. */
  datatype Window = Window(original: Bytes, written: Bytes, first: nat, last: nat)

  /** What the holder of the path lock is doing. */
  datatype Holder =
    | Free
    | Loaded(who: Writer, edit: Edit, seen: Bytes)
    | Saving(edit: Edit, seen: Bytes, previous: Bytes)   // the client has re-read the file for its backup
    | Unarmed(previous: Bytes, written: Bytes)           // the client has written but not armed the timer
    | Restoring(id: nat)                                 // a failed reload has decided to roll back
    | Leaving

  /** A debounced reload under way: before its first reload, between that one's
      failure and the check of the file, or before its second reload. */
  datatype Stage = Taken | Failed | Retrying

  datatype Flight = Flight(window: Window, stage: Stage)

  datatype State = State(
    file: Bytes,
    holder: Holder,
    window: Option<Window>,       // set exactly while debounceTimer is not nil
    live: bool,                   // that timer is scheduled
    stale: nat,                   // scheduled timers whose window is closed already
    started: nat,                 // fires that have started and not yet taken debounceMu
    flights: map<nat, Flight>,
    windows: nat,                  // windows opened so far
    history: seq<Write>,
    attempts: nat,                // reloads attempted so far
    dirty: bool)                  // the client wrote since the last attempt

  datatype Action =
    | Lock(who: Writer, edit: Edit)
    | Backup
    | WriteFile
    | Arm
    | Unlock
    | Expire
    | ExpireStale
    | Fire
    | Reload(id: nat, ok: bool)
    | Check(id: nat)
    | Restore

  function Start(file: Bytes): State {
    State(file, Free, None, false, 0, 0, map[], 0, [], 0, false)
  }

  /** The last write now belongs to the window. */
  function Assigned(history: seq<Write>, window: nat): seq<Write>
    requires |history| > 0
  {
    history[|history| - 1 := history[|history| - 1].(window := window)]
  }

  /** The step, or nothing when it is not enabled. */
  function Next(s: State, a: Action): Option<State> {
    match a
    case Lock(who, edit) =>
      if s.holder.Free? then Some(s.(holder := Loaded(who, edit, s.file))) else None
    case Backup =>
      if s.holder.Loaded? && s.holder.who.Client? then
        if s.holder.edit(s.holder.seen).None? then Some(s.(holder := Leaving))
        else Some(s.(holder := Saving(s.holder.edit, s.holder.seen, s.file)))
      else None
    case WriteFile =>
      if s.holder.Loaded? && s.holder.who.Manager? then
        var after := s.holder.edit(s.holder.seen);
        if after.None? then Some(s.(holder := Leaving))
        else
          Some(s.(file := after.value, holder := Leaving,
                  history := s.history + [Edited(Manager, s.holder.edit, after.value, 0)]))
      else if s.holder.Saving? && s.holder.edit(s.holder.seen).Some? then
        var after := s.holder.edit(s.holder.seen).value;
        Some(s.(file := after, holder := Unarmed(s.holder.previous, after),
                history := s.history + [Edited(Client, s.holder.edit, after, 0)], dirty := true))
      else None
    case Arm =>
      if s.holder.Unarmed? && |s.history| > 0 then
        var at := |s.history| - 1;
        if s.window.None? then
          Some(s.(holder := Leaving, live := true, windows := s.windows + 1,
                  window := Some(Window(s.holder.previous, s.holder.written, at, at)),
                  history := Assigned(s.history, s.windows + 1)))
        else
          Some(s.(holder := Leaving, live := true,
                  window := Some(s.window.value.(written := s.holder.written, last := at)),
                  history := Assigned(s.history, s.windows)))
      else None
    case Unlock =>
      if s.holder.Leaving? then Some(s.(holder := Free)) else None
    case Expire =>
      if s.live then Some(s.(live := false, started := s.started + 1)) else None
    case ExpireStale =>
      if s.stale > 0 then Some(s.(stale := s.stale - 1, started := s.started + 1)) else None
    case Fire =>
      if s.started == 0 then None
      else if s.window.None? then Some(s.(started := s.started - 1))
      else
        Some(s.(started := s.started - 1, window := None, live := false,
                stale := if s.live then s.stale + 1 else s.stale,
                flights := s.flights[s.windows := Flight(s.window.value, Taken)]))
    case Reload(id, ok) =>
      if id in s.flights && !s.flights[id].stage.Failed? then
        Some(s.(attempts := s.attempts + 1, dirty := false,
                flights := if ok || s.flights[id].stage.Retrying? then s.flights - {id}
                           else s.flights[id := Flight(s.flights[id].window, Failed)]))
      else None
    case Check(id) =>
      if id in s.flights && s.flights[id].stage.Failed? && s.holder.Free? then
        var w := s.flights[id].window;
        if s.file == w.written && s.file != w.original then Some(s.(holder := Restoring(id)))
        else Some(s.(holder := Leaving, flights := s.flights[id := Flight(w, Retrying)]))
      else None
    case Restore =>
      if s.holder.Restoring? && s.holder.id in s.flights then
        var w := s.flights[s.holder.id].window;
        Some(s.(file := w.original, holder := Leaving, dirty := true,
                flights := s.flights[s.holder.id := Flight(w, Retrying)],
                history := s.history + [Restored(s.holder.id, w.first, w.last, w.original)]))
      else None
  }

  /** The state after a run, if each of its steps was enabled. */
  function Run(s: State, actions: seq<Action>): Option<State>
    decreases |actions|
  {
    if actions == [] then Some(s)
    else
      var last := |actions| - 1;
      match Run(s, actions[..last])
      case None => None
      case Some(mid) => Next(mid, actions[last])
  }

  /** The file before the i-th write. */
  function ContentAt(start: Bytes, history: seq<Write>, i: nat): Bytes
    requires i <= |history|
  {
    if i == 0 then start else history[i - 1].after
  }

  predicate ClientWrite(history: seq<Write>, i: nat) {
    i < |history| && history[i].Edited? && history[i].who.Client?
  }

  /** From its first to its last, where a window's client writes lie. */
  predicate Spans(history: seq<Write>, id: nat, first: nat, last: nat) {
    && first <= last
    && ClientWrite(history, first) && history[first].window == id
    && ClientWrite(history, last) && history[last].window == id
    && forall j | 0 <= j < |history| && ClientWrite(history, j) && history[j].window == id :: first <= j <= last
  }

  /** The window's bytes are those before its first and after its last write. */
  predicate WindowOf(start: Bytes, history: seq<Write>, id: nat, w: Window) {
    && id > 0
    && Spans(history, id, w.first, w.last)
    && w.original == ContentAt(start, history, w.first)
    && w.written == history[w.last].after
  }

  /** An edit was applied to the bytes it found; a restore overwrote its window's
      last bytes with the bytes from before its first write. */
  predicate WriteOk(start: Bytes, history: seq<Write>, i: nat)
    requires i < |history|
  {
    match history[i]
    case Edited(_, edit, after, _) => edit(ContentAt(start, history, i)) == Some(after)
    case Restored(id, first, last, after) =>
      && id > 0 && last < i && Spans(history, id, first, last)
      && ContentAt(start, history, i) == history[last].after
      && after == ContentAt(start, history, first)
  }

  predicate HistoryOk(start: Bytes, history: seq<Write>) {
    forall i | 0 <= i < |history| :: WriteOk(start, history, i)
  }

  predicate HolderOk(start: Bytes, s: State) {
    match s.holder
    case Loaded(_, _, seen) => seen == s.file
    case Saving(_, seen, previous) => seen == s.file && previous == s.file
    case Unarmed(previous, written) =>
      |s.history| > 0 && ClientWrite(s.history, |s.history| - 1) && s.history[|s.history| - 1].window == 0 && written == s.file
      && previous == ContentAt(start, s.history, |s.history| - 1)
    case Restoring(id) =>
      id in s.flights && s.flights[id].stage.Failed? && s.file == s.flights[id].window.written
    case _ => true
  }

  predicate Early(f: Flight) { f.stage.Taken? }

  function EarlyFlights(flights: map<nat, Flight>): set<nat> {
    set id | id in flights && Early(flights[id])
  }

  function LateFlights(flights: map<nat, Flight>): set<nat> {
    set id | id in flights && !Early(flights[id])
  }

  function ClientWrites(history: seq<Write>): nat {
    if history == [] then 0
    else
      var last := |history| - 1;
      ClientWrites(history[..last]) + if ClientWrite(history, last) then 1 else 0
  }

  /** Restores and reloads under way belong to windows that are closed. */
  predicate Closed(window: Option<Window>, windows: nat, id: nat) {
    id <= windows && (window.Some? ==> id != windows)
  }

  /** What the file, the lock holder, the windows and the history say of each other. */
  predicate FileInv(start: Bytes, s: State) {
    && HistoryOk(start, s.history)
    && s.file == ContentAt(start, s.history, |s.history|)
    && HolderOk(start, s)
    && WindowsOk(start, s.history, s.window, s.windows, s.flights)
    && Owned(s.history, s.windows, s.holder.Unarmed?)
  }

  /** Every client write belongs to a window, but for the last one while unarmed. */
  predicate Owned(history: seq<Write>, windows: nat, unarmed: bool) {
    forall i | 0 <= i < |history| && ClientWrite(history, i) ::
      history[i].window <= windows && (history[i].window == 0 ==> i == |history| - 1 && unarmed)
  }

  predicate WindowsOk(start: Bytes, history: seq<Write>, window: Option<Window>, windows: nat, flights: map<nat, Flight>) {
    && (window.Some? ==> WindowOf(start, history, windows, window.value))
    && (forall id | id in flights :: Closed(window, windows, id) && WindowOf(start, history, id, flights[id].window))
    && (forall i | 0 <= i < |history| && history[i].Restored? :: Closed(window, windows, history[i].window))
  }

  /** Timers and reloads: an open window has a fire coming, a write not yet covered
      by a reload attempt has one coming, and attempts are bounded by writes. */
  predicate TimerInv(s: State) {
    && (forall id | id in s.flights :: Closed(s.window, s.windows, id))
    && (s.window.Some? ==> s.live || s.started > 0)
    && (s.window.None? ==> !s.live)
    && (s.dirty ==> s.holder.Unarmed? || s.window.Some? || s.flights != map[])
    && s.attempts + 2 * |EarlyFlights(s.flights)| + |LateFlights(s.flights)| + (if s.window.Some? then 2 else 0) <= 2 * s.windows
    && s.windows + (if s.holder.Unarmed? then 1 else 0) <= ClientWrites(s.history)
  }

  predicate Inv(start: Bytes, s: State) {
    FileInv(start, s) && TimerInv(s)
  }

  lemma {:induction false} ClientWritesSnoc(history: seq<Write>, w: Write)
    ensures ClientWrites(history + [w]) == ClientWrites(history) + if w.Edited? && w.who.Client? then 1 else 0
  {
    assert (history + [w])[..|history|] == history;
  }

  lemma ClientWritesAssigned(history: seq<Write>, window: nat)
    requires |history| > 0
    ensures ClientWrites(Assigned(history, window)) == ClientWrites(history)
  {
    assert Assigned(history, window)[..|history| - 1] == history[..|history| - 1];
  }

  /** Appending a write that is itself in order, and of no window yet, keeps
      everything said about the history. */
  lemma HistoryGrows(start: Bytes, history: seq<Write>, w: Write)
    requires HistoryOk(start, history)
    requires w.Edited? ==> w.window == 0
    requires WriteOk(start, history + [w], |history|)
    ensures HistoryOk(start, history + [w])
    ensures forall i | 0 <= i <= |history| :: ContentAt(start, history + [w], i) == ContentAt(start, history, i)
    ensures forall id, x | WindowOf(start, history, id, x) :: WindowOf(start, history + [w], id, x)
  {
    var longer := history + [w];
    assert forall i | 0 <= i < |history| :: longer[i] == history[i];
    forall id: nat, first, last | id > 0 && Spans(history, id, first, last) ensures Spans(longer, id, first, last) {
    }
    hide Spans;
    forall i | 0 <= i < |history| ensures WriteOk(start, longer, i) {
      assert WriteOk(start, history, i);
    }
  }

  /** Giving the last write to a window that is not closed keeps what was said
      about closed windows. */
  lemma HistoryAssigned(start: Bytes, history: seq<Write>, id: nat)
    requires |history| > 0 && HistoryOk(start, history)
    requires ClientWrite(history, |history| - 1) && history[|history| - 1].window == 0
    requires forall i | 0 <= i < |history| && history[i].Restored? :: history[i].window != id
    ensures HistoryOk(start, Assigned(history, id))
    ensures forall i | 0 <= i <= |history| :: ContentAt(start, Assigned(history, id), i) == ContentAt(start, history, i)
    ensures forall other, x | other != id && WindowOf(start, history, other, x) :: WindowOf(start, Assigned(history, id), other, x)
  {
    var given := Assigned(history, id);
    assert forall i | 0 <= i < |history| - 1 :: given[i] == history[i];
    forall other: nat, first, last | other > 0 && other != id && Spans(history, other, first, last)
      ensures Spans(given, other, first, last)
    {
    }
    hide Spans;
    forall i | 0 <= i < |history| ensures WriteOk(start, given, i) {
      assert WriteOk(start, history, i);
    }
  }

  lemma FlightMoved(flights: map<nat, Flight>, id: nat, f: Flight)
    requires id in flights
    ensures EarlyFlights(flights[id := f]) == if Early(f) then EarlyFlights(flights) + {id} else EarlyFlights(flights) - {id}
    ensures LateFlights(flights[id := f]) == if Early(f) then LateFlights(flights) - {id} else LateFlights(flights) + {id}
    ensures EarlyFlights(flights - {id}) == EarlyFlights(flights) - {id}
    ensures LateFlights(flights - {id}) == LateFlights(flights) - {id}
    ensures id in EarlyFlights(flights) <==> id !in LateFlights(flights)
  {
  }

  /** A longer history that keeps what was said about windows keeps them in order. */
  lemma WindowsKept(start: Bytes, s: State, w: Write)
    requires WindowsOk(start, s.history, s.window, s.windows, s.flights)
    requires forall id, x | WindowOf(start, s.history, id, x) :: WindowOf(start, s.history + [w], id, x)
    requires w.Restored? ==> Closed(s.window, s.windows, w.window)
    ensures WindowsOk(start, s.history + [w], s.window, s.windows, s.flights)
  {
    hide WindowOf, Closed;
  }

  lemma OwnedGrows(history: seq<Write>, windows: nat, w: Write)
    requires Owned(history, windows, false)
    ensures w.Restored? || w.who.Manager? ==> Owned(history + [w], windows, false)
    ensures w.Edited? && w.window == 0 ==> Owned(history + [w], windows, true)
  {
  }

  lemma FileWrite(start: Bytes, s: State)
    requires FileInv(start, s) && Next(s, WriteFile).Some?
    ensures FileInv(start, Next(s, WriteFile).value)
  {
    hide HistoryOk, WindowsOk, Owned;
    var t := Next(s, WriteFile).value;
    if |t.history| > |s.history| {
      var w := t.history[|s.history|];
      Written(s);
      WrittenOk(start, s.history, w);
      hide Next, WriteOk;
      HistoryGrows(start, s.history, w);
      WindowsKept(start, s, w);
      OwnedGrows(s.history, s.windows, w);
      hide WindowOf;
    }
  }

  /** What writing adds to the history. */
  lemma Written(s: State)
    requires Next(s, WriteFile).Some? && |Next(s, WriteFile).value.history| > |s.history|
    ensures var t := Next(s, WriteFile).value;
            var w := t.history[|s.history|];
      && t.history == s.history + [w] && t.file == w.after && w.Edited? && w.window == 0
      && (s.holder.Loaded? ==> w.who.Manager? && w.edit(s.holder.seen) == Some(w.after))
      && (s.holder.Saving? ==> w.who.Client? && w.edit(s.holder.seen) == Some(w.after))
      && (s.holder.Loaded? || s.holder.Saving?)
      && t.window == s.window && t.windows == s.windows && t.flights == s.flights
      && t.holder == if s.holder.Saving? then Unarmed(s.holder.previous, w.after) else Leaving
  {
  }

  lemma WrittenOk(start: Bytes, history: seq<Write>, w: Write)
    requires w.Edited? && w.edit(ContentAt(start, history, |history|)) == Some(w.after)
    ensures WriteOk(start, history + [w], |history|)
  {
    assert (history + [w])[|history|] == w;
    SameContent(start, history, history + [w], |history|);
  }

  lemma FileRestore(start: Bytes, s: State)
    requires FileInv(start, s) && Next(s, Restore).Some?
    ensures FileInv(start, Next(s, Restore).value)
  {
    hide HistoryOk, WindowsOk, Owned;
    var id, t := s.holder.id, Next(s, Restore).value;
    var x := s.flights[id].window;
    var w := Restored(id, x.first, x.last, x.original);
    assert t.history == s.history + [w] && t.file == x.original && t.holder == Leaving;
    assert t.flights == s.flights[id := Flight(x, Retrying)] && t.window == s.window && t.windows == s.windows;
    assert ContentAt(start, s.history, |s.history|) == x.written;
    hide Next;
    FlightOk(start, s, id);
    RestoreOk(start, s.history, id, x);
    OwnedGrows(s.history, s.windows, w);
    hide WriteOk, WindowOf, Closed;
    HistoryGrows(start, s.history, w);
    WindowsKept(start, s, w);
    FlightRetried(start, t.history, s.window, s.windows, s.flights, id);
  }

  lemma FlightOk(start: Bytes, s: State, id: nat)
    requires WindowsOk(start, s.history, s.window, s.windows, s.flights) && id in s.flights
    ensures WindowOf(start, s.history, id, s.flights[id].window) && Closed(s.window, s.windows, id)
  {
  }

  lemma RestoreOk(start: Bytes, history: seq<Write>, id: nat, x: Window)
    requires WindowOf(start, history, id, x) && ContentAt(start, history, |history|) == x.written
    ensures WriteOk(start, history + [Restored(id, x.first, x.last, x.original)], |history|)
  {
    var longer := history + [Restored(id, x.first, x.last, x.original)];
    assert forall i | 0 <= i < |history| :: longer[i] == history[i];
  }

  lemma FlightRetried(start: Bytes, history: seq<Write>, window: Option<Window>, windows: nat, flights: map<nat, Flight>, id: nat)
    requires WindowsOk(start, history, window, windows, flights) && id in flights
    ensures WindowsOk(start, history, window, windows, flights[id := Flight(flights[id].window, Retrying)])
  {
    hide WindowOf, Closed;
  }

  lemma ArmedWindow(start: Bytes, s: State, t: State)
    requires FileInv(start, s) && Next(s, Arm) == Some(t)
    ensures |s.history| > 0 && t.window.Some? && WindowOf(start, t.history, t.windows, t.window.value)
  {
    hide HistoryOk, Closed;
    assert forall i | 0 <= i < |s.history| - 1 :: t.history[i] == s.history[i];
  }

  lemma FileArm(start: Bytes, s: State)
    requires FileInv(start, s) && Next(s, Arm).Some?
    ensures FileInv(start, Next(s, Arm).value)
  {
    var t := Next(s, Arm).value;
    ArmedWindow(start, s, t);
    hide HistoryOk, WindowOf;
    assert t.history == Assigned(s.history, t.windows) && t.flights == s.flights && t.holder == Leaving && t.file == s.file;
    assert t.windows >= s.windows && (s.window.Some? ==> t.windows == s.windows) && (s.window.None? ==> t.windows == s.windows + 1);
    hide Next;
    HistoryAssigned(start, s.history, t.windows);
    assert forall id :: Closed(s.window, s.windows, id) ==> Closed(t.window, t.windows, id) && id != t.windows;
    hide Closed;
  }

  lemma FileReload(start: Bytes, s: State, a: Action)
    requires FileInv(start, s) && Next(s, a).Some?
    requires a.Fire? || a.Reload? || a.Check?
    ensures FileInv(start, Next(s, a).value)
  {
    hide HistoryOk, WindowOf, ClientWrite, ContentAt;
  }

  lemma FileQuiet(start: Bytes, s: State, a: Action)
    requires FileInv(start, s) && Next(s, a).Some?
    requires a.Lock? || a.Backup? || a.Unlock? || a.Expire? || a.ExpireStale?
    ensures FileInv(start, Next(s, a).value)
  {
    hide HistoryOk, WindowOf, ClientWrite, ContentAt;
  }

  lemma FileStep(start: Bytes, s: State, a: Action)
    requires FileInv(start, s) && Next(s, a).Some?
    ensures FileInv(start, Next(s, a).value)
  {
    hide FileInv, Next;
    match a
    case WriteFile => FileWrite(start, s);
    case Restore => FileRestore(start, s);
    case Arm => FileArm(start, s);
    case Fire => FileReload(start, s, a);
    case Reload(_, _) => FileReload(start, s, a);
    case Check(_) => FileReload(start, s, a);
    case _ => FileQuiet(start, s, a);
  }

  /** Moving one reload to its next stage, or finishing it, against the count. */
  lemma TimerFlight(s: State, id: nat, f: Flight)
    requires TimerInv(s) && id in s.flights && !Early(f)
    ensures var moved := s.flights[id := f];
      2 * |EarlyFlights(moved)| + |LateFlights(moved)| + (if Early(s.flights[id]) then 1 else 0) ==
      2 * |EarlyFlights(s.flights)| + |LateFlights(s.flights)|
    ensures var fewer := s.flights - {id};
      2 * |EarlyFlights(fewer)| + |LateFlights(fewer)| + (if Early(s.flights[id]) then 2 else 1) ==
      2 * |EarlyFlights(s.flights)| + |LateFlights(s.flights)|
  {
    FlightMoved(s.flights, id, f);
    var early, late := EarlyFlights(s.flights), LateFlights(s.flights);
    hide EarlyFlights, LateFlights;
    if id in early {
      assert |early - {id}| == |early| - 1 && late - {id} == late;
    } else {
      assert early - {id} == early && late + {id} == late && |late - {id}| == |late| - 1;
    }
  }

  lemma TimerFire(s: State)
    requires TimerInv(s) && Next(s, Fire).Some?
    ensures TimerInv(Next(s, Fire).value)
  {
    hide ClientWrites;
    if s.window.Some? {
      var t := Next(s, Fire).value;
      assert EarlyFlights(t.flights) == EarlyFlights(s.flights) + {s.windows};
      assert LateFlights(t.flights) == LateFlights(s.flights);
      assert s.windows in t.flights;
    }
  }

  lemma TimerRestore(s: State)
    requires TimerInv(s) && Next(s, Restore).Some?
    ensures TimerInv(Next(s, Restore).value)
  {
    hide EarlyFlights, LateFlights, ClientWrites;
    var t := Next(s, Restore).value;
    var w := t.history[|s.history|];
    assert t.history == s.history + [w];
    ClientWritesSnoc(s.history, w);
    TimerFlight(s, s.holder.id, t.flights[s.holder.id]);
  }

  lemma TimerWrite(s: State)
    requires TimerInv(s) && Next(s, WriteFile).Some?
    ensures TimerInv(Next(s, WriteFile).value)
  {
    hide EarlyFlights, LateFlights, ClientWrites;
    var t := Next(s, WriteFile).value;
    if |t.history| > |s.history| {
      var w := t.history[|s.history|];
      assert t.history == s.history + [w];
      ClientWritesSnoc(s.history, w);
    }
  }

  lemma TimerStep(s: State, a: Action)
    requires TimerInv(s) && Next(s, a).Some?
    ensures TimerInv(Next(s, a).value)
  {
    hide EarlyFlights, LateFlights, ClientWrites;
    match a
    case WriteFile => TimerWrite(s);
    case Restore => TimerRestore(s);
    case Arm => ClientWritesAssigned(s.history, Next(s, Arm).value.windows);
    case Fire => TimerFire(s);
    case Reload(id, ok) => TimerFlight(s, id, Flight(s.flights[id].window, Failed));
    case Check(id) => TimerFlight(s, id, Flight(s.flights[id].window, Retrying));
    case _ =>
  }

  /** Every run keeps the invariant. */
  lemma {:induction false} RunKeepsInv(start: Bytes, actions: seq<Action>)
    requires Run(Start(start), actions).Some?
    ensures Inv(start, Run(Start(start), actions).value)
    decreases |actions|
  {
    if actions != [] {
      hide FileInv, TimerInv, Next;
      var last := |actions| - 1;
      RunKeepsInv(start, actions[..last]);
      var before := Run(Start(start), actions[..last]).value;
      FileStep(start, before, actions[last]);
      TimerStep(before, actions[last]);
    }
  }

  // What holds in every reachable state.

  /** Read-modify-write cycles are serialised: at any time the file is the result
      of the committed writes in lock order, each computed from the bytes its
      predecessor left, so no update is lost to a stale read. */
  lemma FileIsFoldOfWrites(start: Bytes, actions: seq<Action>)
    requires Run(Start(start), actions).Some?
    ensures var s := Run(Start(start), actions).value;
      && s.file == ContentAt(start, s.history, |s.history|)
      && forall i | 0 <= i < |s.history| && s.history[i].Edited? ::
           s.history[i].edit(ContentAt(start, s.history, i)) == Some(ContentAt(start, s.history, i + 1))
  {
    RunKeepsInv(start, actions);
    var s := Run(Start(start), actions).value;
    hide Run;
    forall i | 0 <= i < |s.history| && s.history[i].Edited?
      ensures s.history[i].edit(ContentAt(start, s.history, i)) == Some(ContentAt(start, s.history, i + 1))
    {
      assert WriteOk(start, s.history, i);
    }
  }

  /** What one write establishes and every later edit keeps holds from then on, unless
      a rollback goes back to a time before that write. */
  lemma {:induction false} WriteSurvives(start: Bytes, history: seq<Write>, i: nat, n: nat, kept: Bytes -> bool)
    requires HistoryOk(start, history) && i < n <= |history|
    requires kept(history[i].after)
    requires forall j | i < j < n && history[j].Restored? :: i < history[j].first
    requires forall j, b | i < j < n && history[j].Edited? && kept(b) && history[j].edit(b).Some? :: kept(history[j].edit(b).value)
    ensures kept(ContentAt(start, history, n))
    decreases n
  {
    if i + 1 < n {
      assert WriteOk(start, history, n - 1);
      match history[n - 1]
      case Edited(_, _, _, _) => WriteSurvives(start, history, i, n - 1, kept);
      case Restored(_, first, _, _) => WriteSurvives(start, history, i, first, kept);
    }
  }

  /** A rollback overwrites only its window's last client write, and writes back
      exactly the file from before its first; so bytes that differ from that last
      write are never overwritten. */
  lemma RollbackIsExact(start: Bytes, actions: seq<Action>, i: nat)
    requires Run(Start(start), actions).Some?
    requires i < |Run(Start(start), actions).value.history| && Run(Start(start), actions).value.history[i].Restored?
    ensures var history := Run(Start(start), actions).value.history;
            var w := history[i];
      && w.last < i && Spans(history, w.window, w.first, w.last)
      && ContentAt(start, history, i) == history[w.last].after
      && ContentAt(start, history, i + 1) == ContentAt(start, history, w.first)
  {
    RunKeepsInv(start, actions);
    assert WriteOk(start, Run(Start(start), actions).value.history, i);
  }

  /** What was established before a window's first write, and not rolled back until
      then, is still there after the window's rollback. */
  lemma RollbackKeepsEarlier(start: Bytes, history: seq<Write>, i: nat, j: nat, kept: Bytes -> bool)
    requires HistoryOk(start, history) && i < |history| && history[i].Restored?
    requires j < history[i].first < i && kept(history[j].after)
    requires forall k | j < k < history[i].first && history[k].Restored? :: j < history[k].first
    requires forall k, b | j < k < history[i].first && history[k].Edited? && kept(b) && history[k].edit(b).Some? ::
               kept(history[k].edit(b).value)
    ensures kept(history[i].after)
  {
    assert WriteOk(start, history, i);
    WriteSurvives(start, history, j, history[i].first, kept);
  }

  // When a window is rolled back at all.

  /** The outcomes of the reload attempts for a window, in order. */
  function ReloadsOf(actions: seq<Action>, id: nat): seq<bool>
    decreases |actions|
  {
    if actions == [] then []
    else
      var last := |actions| - 1;
      ReloadsOf(actions[..last], id) + if actions[last].Reload? && actions[last].id == id then [actions[last].ok] else []
  }

  predicate RolledBack(history: seq<Write>, id: nat) {
    exists i | 0 <= i < |history| :: history[i].Restored? && history[i].window == id
  }

  /** The window has been opened, and closed by a fire. */
  predicate Fired(s: State, id: nat) {
    1 <= id <= s.windows && (s.window.Some? ==> id != s.windows)
  }

  /** What the attempts so far say of a window: none before its fire; then one is to
      come, until it succeeds; if it fails, the file is checked and a second one is to
      come, and only then can the window be rolled back. */
  ghost predicate LifeOk(s: State, reloads: seq<bool>, id: nat) {
    && (id in s.flights ==> Fired(s, id) && reloads == if s.flights[id].stage.Taken? then [] else [false])
    && (id !in s.flights ==> if Fired(s, id) then reloads == [true] || (|reloads| == 2 && !reloads[0]) else reloads == [])
    && (RolledBack(s.history, id) ==> reloads != [] && !reloads[0] && (id in s.flights ==> s.flights[id].stage.Retrying?))
    && (s.holder == Restoring(id) ==> id in s.flights && s.flights[id].stage.Failed?)
  }

  lemma RolledBackSnoc(history: seq<Write>, w: Write, id: nat)
    ensures RolledBack(history + [w], id) <==> RolledBack(history, id) || (w.Restored? && w.window == id)
  {
    if RolledBack(history, id) {
      var i :| 0 <= i < |history| && history[i].Restored? && history[i].window == id;
      assert (history + [w])[i] == history[i];
    }
    assert (history + [w])[|history|] == w;
  }

  lemma RolledBackAssigned(history: seq<Write>, window: nat, id: nat)
    requires |history| > 0 && history[|history| - 1].Edited?
    ensures RolledBack(Assigned(history, window), id) <==> RolledBack(history, id)
  {
    var given := Assigned(history, window);
    assert forall i | 0 <= i < |history| :: given[i].Restored? <==> history[i].Restored?;
    assert forall i | 0 <= i < |history| && history[i].Restored? :: given[i] == history[i];
  }

  lemma LifeStep(start: Bytes, s: State, a: Action, t: State, reloads: seq<bool>, id: nat)
    requires FileInv(start, s) && Next(s, a) == Some(t) && LifeOk(s, reloads, id)
    ensures LifeOk(t, reloads + if a.Reload? && a.id == id then [a.ok] else [], id)
  {
    HistoryStep(start, s, a, t, id);
    hide RolledBack;
    assert reloads + [] == reloads;
    if a.Reload? && a.id == id {
      ReloadStep(s, a, t, reloads, id);
    } else if a.Fire? || a.Arm? {
      if s.window.Some? { WindowSpans(start, s); }
      hide FileInv;
      WindowStep(s, a, t, reloads, id);
    } else {
      hide FileInv;
      FlightStep(s, a, t, reloads, id);
    }
  }

  lemma WindowStep(s: State, a: Action, t: State, reloads: seq<bool>, id: nat)
    requires Next(s, a) == Some(t) && LifeOk(s, reloads, id) && (a.Fire? || a.Arm?)
    requires s.window.Some? ==> s.windows > 0
    requires RolledBack(t.history, id) <==> RolledBack(s.history, id)
    ensures LifeOk(t, reloads, id)
  {
    hide RolledBack, Assigned;
  }

  lemma FlightStep(s: State, a: Action, t: State, reloads: seq<bool>, id: nat)
    requires Next(s, a) == Some(t) && LifeOk(s, reloads, id) && !a.Fire? && !a.Arm? && !(a.Reload? && a.id == id)
    requires RolledBack(t.history, id) <==> RolledBack(s.history, id) || (a.Restore? && s.holder == Restoring(id))
    ensures LifeOk(t, reloads, id)
  {
    hide RolledBack;
  }

  /** Only restoring rolls a window back. */
  lemma HistoryStep(start: Bytes, s: State, a: Action, t: State, id: nat)
    requires FileInv(start, s) && Next(s, a) == Some(t)
    ensures RolledBack(t.history, id) <==> RolledBack(s.history, id) || (a.Restore? && s.holder == Restoring(id))
  {
    hide HistoryOk, WindowsOk, Owned;
    match a
    case WriteFile =>
      if |t.history| > |s.history| {
        Written(s);
        hide Next, RolledBack;
        RolledBackSnoc(s.history, t.history[|s.history|], id);
      }
    case Arm =>
      LastIsNew(start, s, t);
      ArmedHistory(s, t, 1);
      assert t.history == Assigned(s.history, t.windows);
      hide Next, RolledBack;
      RolledBackAssigned(s.history, t.windows, id);
    case Restore =>
      var w := s.flights[s.holder.id].window;
      assert t.history == s.history + [Restored(s.holder.id, w.first, w.last, w.original)];
      hide Next, RolledBack;
      RolledBackSnoc(s.history, Restored(s.holder.id, w.first, w.last, w.original), id);
    case _ =>
  }

  lemma ReloadStep(s: State, a: Action, t: State, reloads: seq<bool>, id: nat)
    requires Next(s, a) == Some(t) && LifeOk(s, reloads, id) && a.Reload? && a.id == id
    requires RolledBack(t.history, id) <==> RolledBack(s.history, id)
    ensures LifeOk(t, reloads + [a.ok], id)
  {
    hide RolledBack;
    assert [] + [a.ok] == [a.ok] && |[false] + [a.ok]| == 2 && ([false] + [a.ok])[0] == false;
  }

  /** In every run and for every window: there is at most one successful first reload or
      a failed one and a second; the window is rolled back only if the first failed; and
      once it has fired, attempts are to come until there was the one or both. */
  lemma {:induction false} ReloadsDecide(start: Bytes, actions: seq<Action>, id: nat)
    requires Run(Start(start), actions).Some?
    ensures LifeOk(Run(Start(start), actions).value, ReloadsOf(actions, id), id)
    decreases |actions|
  {
    if actions != [] {
      var last := |actions| - 1;
      var s := Run(Start(start), actions[..last]).value;
      ReloadsDecide(start, actions[..last], id);
      RunKeepsInv(start, actions[..last]);
      hide LifeOk, Next, FileInv, TimerInv;
      LifeStep(start, s, actions[last], Run(Start(start), actions).value, ReloadsOf(actions[..last], id), id);
    }
  }

  /** So a window whose first reload succeeds is never rolled back and not reloaded again. */
  lemma SuccessIsFinal(start: Bytes, actions: seq<Action>, id: nat)
    requires Run(Start(start), actions).Some?
    ensures var s, reloads := Run(Start(start), actions).value, ReloadsOf(actions, id);
      && |reloads| <= 2
      && (RolledBack(s.history, id) ==> reloads != [] && reloads[0] == false)
      && (reloads != [] && reloads[0] ==> reloads == [true] && !RolledBack(s.history, id) && id !in s.flights)
  {
    ReloadsDecide(start, actions, id);
    hide Run, RolledBack, ReloadsOf;
  }

  /** What the check of a window leads to, with the state in which it was made. */
  ghost predicate Checked(before: State, s: State, id: nat, w: Window, restores: bool) {
    if restores then
      || (s.holder == Restoring(id) && s.history == before.history && id in s.flights && s.flights[id] == Flight(w, Failed))
      || (|before.history| < |s.history| && s.history[|before.history|] == Restored(id, w.first, w.last, w.original))
    else
      && !RolledBack(s.history, id) && s.holder != Restoring(id) && Fired(s, id)
      && (id in s.flights ==> s.flights[id].stage.Retrying?)
  }

  lemma CheckedStep(start: Bytes, before: State, s: State, a: Action, t: State, id: nat, w: Window, restores: bool)
    requires FileInv(start, s) && Next(s, a) == Some(t) && Checked(before, s, id, w, restores) && Fired(s, id)
    ensures Checked(before, t, id, w, restores) && Fired(t, id)
  {
    hide FileInv, Next, RolledBack, Fired;
    if restores {
      if |before.history| < |s.history| && s.history[|before.history|] == Restored(id, w.first, w.last, w.original) {
        HistoryStays(start, s, a, t);
        FiredStays(s, a, t, id);
      } else {
        RestoringStep(s, a, t, id, w);
      }
    } else {
      HistoryStep(start, s, a, t, id);
      NotRestoringStep(s, a, t, id);
    }
  }

  lemma FiredStays(s: State, a: Action, t: State, id: nat)
    requires Next(s, a) == Some(t) && Fired(s, id)
    ensures Fired(t, id)
  {
  }

  lemma RestoringStep(s: State, a: Action, t: State, id: nat, w: Window)
    requires Next(s, a) == Some(t) && Fired(s, id)
    requires s.holder == Restoring(id) && id in s.flights && s.flights[id] == Flight(w, Failed)
    ensures Fired(t, id)
    ensures if a.Restore? then t.history == s.history + [Restored(id, w.first, w.last, w.original)]
            else t.holder == s.holder && t.history == s.history && id in t.flights && t.flights[id] == s.flights[id]
  {
  }

  lemma NotRestoringStep(s: State, a: Action, t: State, id: nat)
    requires Next(s, a) == Some(t) && Fired(s, id)
    requires s.holder != Restoring(id) && (id in s.flights ==> s.flights[id].stage.Retrying?)
    ensures Fired(t, id) && t.holder != Restoring(id) && (id in t.flights ==> t.flights[id].stage.Retrying?)
  {
  }

  /** Restores stay in the history. */
  lemma HistoryStays(start: Bytes, s: State, a: Action, t: State)
    requires FileInv(start, s) && Next(s, a) == Some(t)
    ensures |s.history| <= |t.history| && forall i | 0 <= i < |s.history| && s.history[i].Restored? :: t.history[i] == s.history[i]
  {
    hide FileInv, Next;
    if a.Arm? {
      LastIsNew(start, s, t);
      ArmedStays(s, t);
    } else {
      OthersStay(s, a, t);
    }
  }

  lemma OthersStay(s: State, a: Action, t: State)
    requires Next(s, a) == Some(t) && !a.Arm?
    ensures t.history == s.history || (|t.history| == |s.history| + 1 && t.history[..|s.history|] == s.history)
  {
  }

  lemma ArmedStays(s: State, t: State)
    requires Next(s, Arm) == Some(t) && s.history != [] && s.history[|s.history| - 1].Edited?
    ensures |s.history| == |t.history| && forall i | 0 <= i < |s.history| && s.history[i].Restored? :: t.history[i] == s.history[i]
  {
    assert t.history == Assigned(s.history, t.windows);
    hide Next;
  }

  /** In every run, when the reload of a window has failed, the file is rolled back as the
      next write exactly if at the check it is what the window's client wrote last and
      not what was there before its first write; otherwise the window is never rolled
      back. */
  lemma CheckDecides(start: Bytes, actions: seq<Action>, n: nat, id: nat) returns (first: nat, last: nat)
    requires n < |actions| && actions[n] == Check(id) && Run(Start(start), actions).Some?
    ensures Run(Start(start), actions[..n]).Some?
    ensures var before, s := Run(Start(start), actions[..n]).value, Run(Start(start), actions).value;
      && Spans(before.history, id, first, last)
      && if before.file == before.history[last].after && before.file != ContentAt(start, before.history, first) then
           || (s.holder == Restoring(id) && s.history == before.history)
           || (|before.history| < |s.history| &&
               s.history[|before.history|] == Restored(id, first, last, ContentAt(start, before.history, first)))
         else !RolledBack(s.history, id)
  {
    RunPrefix(start, actions, n);
    RunPrefix(start, actions, n + 1);
    var before, after := Run(Start(start), actions[..n]).value, Run(Start(start), actions[..n + 1]).value;
    assert actions[..n + 1][..n] == actions[..n];
    assert Next(before, Check(id)) == Some(after);
    RunKeepsInv(start, actions[..n]);
    ReloadsDecide(start, actions[..n], id);
    hide Run;
    var w := before.flights[id].window;
    FlightOk(start, before, id);
    first, last := w.first, w.last;
    var restores := before.file == w.written && before.file != w.original;
    assert WindowOf(start, before.history, id, w);
    CheckMade(before, after, ReloadsOf(actions[..n], id), id);
    hide FileInv, TimerInv, LifeOk, Next, Spans, ContentAt, WindowsOk, ReloadsOf, Fired, RolledBack;
    CheckedOn(start, actions, n + 1, before, id, w, restores);
  }

  /** Right after the check. */
  lemma CheckMade(before: State, after: State, reloads: seq<bool>, id: nat)
    requires Next(before, Check(id)) == Some(after) && LifeOk(before, reloads, id)
    ensures var w := before.flights[id].window;
      Checked(before, after, id, w, before.file == w.written && before.file != w.original) && Fired(after, id)
  {
    hide RolledBack;
  }

  lemma RunPrefix(start: Bytes, actions: seq<Action>, n: nat)
    requires n <= |actions| && Run(Start(start), actions).Some?
    ensures Run(Start(start), actions[..n]).Some?
  {
    WindowsGrow(start, actions, n);
  }

  lemma {:induction false} CheckedOn(start: Bytes, actions: seq<Action>, n: nat, before: State, id: nat, w: Window, restores: bool)
    requires n <= |actions| && Run(Start(start), actions).Some? && Run(Start(start), actions[..n]).Some?
    requires Checked(before, Run(Start(start), actions[..n]).value, id, w, restores) && Fired(Run(Start(start), actions[..n]).value, id)
    ensures Checked(before, Run(Start(start), actions).value, id, w, restores) && Fired(Run(Start(start), actions).value, id)
    decreases |actions|
  {
    hide Checked, Fired, Next, FileInv, TimerInv;
    if n == |actions| {
      assert actions[..n] == actions;
    } else {
      var last := |actions| - 1;
      assert actions[..last][..n] == actions[..n];
      CheckedOn(start, actions[..last], n, before, id, w, restores);
      RunKeepsInv(start, actions[..last]);
      CheckedStep(start, before, Run(Start(start), actions[..last]).value, actions[last], Run(Start(start), actions).value, id, w, restores);
    }
  }

  /** How often the run attempts a reload. */
  function Reloads(actions: seq<Action>): nat {
    if actions == [] then 0
    else
      var last := |actions| - 1;
      Reloads(actions[..last]) + if actions[last].Reload? then 1 else 0
  }

  /** Whether the client's side has written, or rolled back, since the last attempt. */
  function Uncovered(start: Bytes, actions: seq<Action>): bool
    requires Run(Start(start), actions).Some?
    decreases |actions|
  {
    if actions == [] then false
    else
      var last := |actions| - 1;
      var before, after := Run(Start(start), actions[..last]).value, Run(Start(start), actions).value;
      if actions[last].Reload? then false
      else if |after.history| > |before.history| && !(after.history[|before.history|].Edited? && after.history[|before.history|].who.Manager?) then true
      else Uncovered(start, actions[..last])
  }

  /** The counter of attempts and the mark of uncovered writes are what they say. */
  lemma {:induction false} Counted(start: Bytes, actions: seq<Action>)
    requires Run(Start(start), actions).Some?
    ensures Run(Start(start), actions).value.attempts == Reloads(actions)
    ensures Run(Start(start), actions).value.dirty == Uncovered(start, actions)
    decreases |actions|
  {
    if actions != [] {
      var last := |actions| - 1;
      Counted(start, actions[..last]);
      CountedStep(Run(Start(start), actions[..last]).value, actions[last]);
      hide Next;
    }
  }

  lemma CountedStep(s: State, a: Action)
    requires Next(s, a).Some?
    ensures var t := Next(s, a).value;
      && t.attempts == s.attempts + (if a.Reload? then 1 else 0)
      && (|t.history| > |s.history| ==> !a.Reload?)
      && t.dirty == if a.Reload? then false
                    else if |t.history| > |s.history| && !(t.history[|s.history|].Edited? && t.history[|s.history|].who.Manager?) then true
                    else s.dirty
  {
  }

  /** How many timers the run schedules: each time a window is armed for which none is;
      one that is scheduled already is only put off. */
  function Scheduled(start: Bytes, actions: seq<Action>): nat
    requires Run(Start(start), actions).Some?
    decreases |actions|
  {
    if actions == [] then 0
    else
      var last := |actions| - 1;
      Scheduled(start, actions[..last]) +
      if actions[last].Arm? && !Run(Start(start), actions[..last]).value.live then 1 else 0
  }

  function Fires(actions: seq<Action>): nat {
    if actions == [] then 0
    else
      var last := |actions| - 1;
      Fires(actions[..last]) + if actions[last].Fire? then 1 else 0
  }

  /** No timer is lost and none fires twice: those of a run are scheduled, were scheduled
      when their window closed, have expired, or have fired. */
  lemma {:induction false} TimersConserved(start: Bytes, actions: seq<Action>)
    requires Run(Start(start), actions).Some?
    ensures var s := Run(Start(start), actions).value;
            Scheduled(start, actions) == (if s.live then 1 else 0) + s.stale + s.started + Fires(actions)
    decreases |actions|
  {
    if actions != [] {
      var last := |actions| - 1;
      var s := Run(Start(start), actions[..last]).value;
      TimersConserved(start, actions[..last]);
      RunKeepsInv(start, actions[..last]);
      assert s.window.None? ==> !s.live;
      TimersStep(s, actions[last]);
      hide Next, FileInv, TimerInv;
    }
  }

  lemma TimersStep(s: State, a: Action)
    requires Next(s, a).Some? && (s.window.None? ==> !s.live)
    ensures var t := Next(s, a).value;
      (if t.live then 1 else 0) + t.stale + t.started + (if a.Fire? then 1 else 0) ==
      (if s.live then 1 else 0) + s.stale + s.started + (if a.Arm? && !s.live then 1 else 0)
  {
  }

  // When a rollback takes other writers' changes with it.

  predicate OfWindow(history: seq<Write>, id: nat, k: nat) {
    ClientWrite(history, k) && history[k].window == id
  }

  /** The file before the k-th write had the window's own edits been the only ones
      since its first. */
  function Solo(start: Bytes, history: seq<Write>, id: nat, first: nat, k: nat): Option<Bytes>
    requires first <= k <= |history|
    decreases k
  {
    if k == first then Some(ContentAt(start, history, first))
    else
      var before := Solo(start, history, id, first, k - 1);
      if OfWindow(history, id, k - 1) && before.Some? then history[k - 1].edit(before.value) else before
  }

  /** Some write of the window was built on something else: on changes of others. */
  ghost predicate BuiltOnOthers(start: Bytes, history: seq<Write>, id: nat, first: nat, last: nat) {
    exists k | first < k <= last < |history| && OfWindow(history, id, k) ::
      Some(ContentAt(start, history, k)) != Solo(start, history, id, first, k)
  }

  /** The window's write before the k-th. */
  function Preceding(history: seq<Write>, id: nat, first: nat, k: nat): (p: nat)
    requires first < k <= |history|
    ensures first <= p < k
    ensures OfWindow(history, id, first) ==> OfWindow(history, id, p)
    ensures forall j | p < j < k :: !OfWindow(history, id, j)
    decreases k
  {
    if k == first + 1 || OfWindow(history, id, k - 1) then k - 1 else Preceding(history, id, first, k - 1)
  }

  /** Some write of the window was computed from other bytes than the window's write
      before it had left. */
  ghost predicate Overtaken(start: Bytes, history: seq<Write>, id: nat, first: nat, last: nat) {
    exists k | first < k <= last < |history| && OfWindow(history, id, k) ::
      ContentAt(start, history, k) != history[Preceding(history, id, first, k)].after
  }

  lemma {:induction false} SoloStays(start: Bytes, history: seq<Write>, id: nat, first: nat, p: nat, k: nat)
    requires first <= p <= k <= |history|
    requires forall j | p <= j < k :: !OfWindow(history, id, j)
    ensures Solo(start, history, id, first, k) == Solo(start, history, id, first, p)
    decreases k
  {
    if p < k { SoloStays(start, history, id, first, p, k - 1); }
  }

  /** While no write of the window is overtaken, they find what the window alone makes. */
  lemma {:induction false} SoloUntil(start: Bytes, history: seq<Write>, id: nat, first: nat, k: nat)
    requires HistoryOk(start, history) && first <= k < |history| && OfWindow(history, id, first) && OfWindow(history, id, k)
    requires forall j | first < j < k && OfWindow(history, id, j) ::
               ContentAt(start, history, j) == history[Preceding(history, id, first, j)].after
    ensures k > first ==> Solo(start, history, id, first, k) == Some(history[Preceding(history, id, first, k)].after)
    decreases k
  {
    if k > first {
      var p := Preceding(history, id, first, k);
      if p == first { SoloStart(start, history, id, first); }
      hide Solo, ContentAt, HistoryOk, OfWindow, Preceding;
      SoloUntil(start, history, id, first, p);
      SoloStep(start, history, id, first, p);
      SoloStays(start, history, id, first, p + 1, k);
    }
  }

  lemma SoloStart(start: Bytes, history: seq<Write>, id: nat, first: nat)
    requires first <= |history|
    ensures Solo(start, history, id, first, first) == Some(ContentAt(start, history, first))
  {
  }

  lemma SoloStep(start: Bytes, history: seq<Write>, id: nat, first: nat, p: nat)
    requires HistoryOk(start, history) && first <= p < |history| && OfWindow(history, id, p)
    requires Solo(start, history, id, first, p) == Some(ContentAt(start, history, p))
    ensures Solo(start, history, id, first, p + 1) == Some(history[p].after)
  {
    hide ContentAt;
    assert WriteOk(start, history, p);
  }

  /** A window's writes were built on changes of others exactly when one of them found
      other bytes than the window's write before it had left. */
  lemma BuiltOnOthersExactly(start: Bytes, history: seq<Write>, id: nat, first: nat, last: nat)
    requires HistoryOk(start, history) && Spans(history, id, first, last)
    ensures BuiltOnOthers(start, history, id, first, last) <==> Overtaken(start, history, id, first, last)
  {
    hide Solo, ContentAt, HistoryOk;
    if exists k | first < k <= last && OfWindow(history, id, k) ::
         ContentAt(start, history, k) != history[Preceding(history, id, first, k)].after {
      var k := FirstOvertaken(start, history, id, first, last);
      SoloUntil(start, history, id, first, k);
    } else {
      forall k | first < k <= last && OfWindow(history, id, k)
        ensures Some(ContentAt(start, history, k)) == Solo(start, history, id, first, k)
      {
        SoloUntil(start, history, id, first, k);
      }
    }
  }

  /** What a rollback overwrites is not what the window's own edits alone make of the
      file that it puts back: others' changes are lost. */
  predicate OthersLost(start: Bytes, history: seq<Write>, id: nat, first: nat, last: nat)
    requires first <= last < |history|
  {
    Some(history[last].after) != Solo(start, history, id, first, last + 1)
  }

  /** A rollback takes changes of others with it only if a write of its window found
      other bytes than the window's write before it had left; otherwise it undoes the
      window's own edits and nothing else. */
  lemma OthersLostOnlyIfOvertaken(start: Bytes, actions: seq<Action>, i: nat)
    requires Run(Start(start), actions).Some?
    requires i < |Run(Start(start), actions).value.history| && Run(Start(start), actions).value.history[i].Restored?
    ensures var history := Run(Start(start), actions).value.history;
            var w := history[i];
      && w.first <= w.last < i
      && (BuiltOnOthers(start, history, w.window, w.first, w.last) <==> Overtaken(start, history, w.window, w.first, w.last))
      && (OthersLost(start, history, w.window, w.first, w.last) ==> Overtaken(start, history, w.window, w.first, w.last))
  {
    RunKeepsInv(start, actions);
    var history := Run(Start(start), actions).value.history;
    assert WriteOk(start, history, i);
    var id, first, last := history[i].window, history[i].first, history[i].last;
    hide Run, WriteOk, Inv;
    BuiltOnOthersExactly(start, history, id, first, last);
    if !Overtaken(start, history, id, first, last) {
      assert OfWindow(history, id, first) && OfWindow(history, id, last);
      if first == last { SoloStart(start, history, id, first); } else { SoloUntil(start, history, id, first, last); }
      hide Solo, ContentAt, HistoryOk, Spans;
      SoloStep(start, history, id, first, last);
    }
  }

  lemma {:induction false} FirstOvertaken(start: Bytes, history: seq<Write>, id: nat, first: nat, last: nat) returns (k: nat)
    requires first <= last < |history|
    requires exists k | first < k <= last && OfWindow(history, id, k) ::
               ContentAt(start, history, k) != history[Preceding(history, id, first, k)].after
    ensures first < k <= last && OfWindow(history, id, k)
    ensures ContentAt(start, history, k) != history[Preceding(history, id, first, k)].after
    ensures forall j | first < j < k && OfWindow(history, id, j) ::
              ContentAt(start, history, j) == history[Preceding(history, id, first, j)].after
    decreases last
  {
    hide ContentAt, OfWindow, Preceding;
    k :| first < k <= last && OfWindow(history, id, k) && ContentAt(start, history, k) != history[Preceding(history, id, first, k)].after;
    if exists j | first < j <= k - 1 && OfWindow(history, id, j) ::
         ContentAt(start, history, j) != history[Preceding(history, id, first, j)].after {
      k := FirstOvertaken(start, history, id, first, k - 1);
    }
  }

  // The client can tell.

  /** The n-th action resets the window's timer, and the backup that the client has read
      differs from the bytes that the window wrote last. */
  ghost predicate ResetSawOthers(start: Bytes, actions: seq<Action>, n: nat, id: nat) {
    n < |actions| && actions[n].Arm? && Run(Start(start), actions[..n]).Some? &&
    var s := Run(Start(start), actions[..n]).value;
    s.holder.Unarmed? && s.window.Some? && s.windows == id && s.holder.previous != s.window.value.written
  }

  ghost predicate SomeResetSaw(start: Bytes, actions: seq<Action>, id: nat) {
    exists n :: ResetSawOthers(start, actions, n, id)
  }

  /** In every run and for every window: a write was overtaken exactly if one of the
      window's resets saw it. */
  lemma {:induction false} ResetsTell(start: Bytes, actions: seq<Action>)
    requires Run(Start(start), actions).Some?
    ensures var history := Run(Start(start), actions).value.history;
      forall id: nat, first, last | id > 0 && Spans(history, id, first, last) ::
        Overtaken(start, history, id, first, last) <==> SomeResetSaw(start, actions, id)
    decreases |actions|
  {
    if actions != [] {
      var front, a := actions[..|actions| - 1], actions[|actions| - 1];
      var s, t := Run(Start(start), front).value, Run(Start(start), actions).value;
      ResetsTell(start, front);
      RunKeepsInv(start, front);
      forall id: nat, first, last | id > 0 && Spans(t.history, id, first, last)
        ensures Overtaken(start, t.history, id, first, last) <==> SomeResetSaw(start, actions, id)
      {
        SeenBefore(start, actions, id);
        if SomeResetSaw(start, front, id) { SeenWindow(start, front, id); }
        hide Run, FileInv, TimerInv, Overtaken, SomeResetSaw, SeesOthers, Spans;
        StepTells(start, s, t, a, id, first, last, SomeResetSaw(start, front, id));
      }
    }
  }

  /** Whether this action is a reset that sees it. */
  predicate SeesOthers(s: State, a: Action, id: nat) {
    a.Arm? && s.holder.Unarmed? && s.window.Some? && s.windows == id && s.holder.previous != s.window.value.written
  }

  lemma SeenBefore(start: Bytes, actions: seq<Action>, id: nat)
    requires actions != [] && Run(Start(start), actions).Some?
    ensures var front, a := actions[..|actions| - 1], actions[|actions| - 1];
      && Run(Start(start), front).Some?
      && (SomeResetSaw(start, actions, id) <==> SomeResetSaw(start, front, id) || SeesOthers(Run(Start(start), front).value, a, id))
  {
    var last := |actions| - 1;
    var front, a := actions[..last], actions[last];
    assert Run(Start(start), front).Some?;
    hide Run;
    assert ResetSawOthers(start, actions, last, id) <==> SeesOthers(Run(Start(start), front).value, a, id);
    hide SeesOthers, ResetSawOthers;
    forall n: nat ensures ResetSawOthers(start, front, n, id) <==> n < last && ResetSawOthers(start, actions, n, id) {
      SameReset(start, actions, last, n, id);
    }
    forall n: nat | ResetSawOthers(start, actions, n, id) ensures n <= last {
      ResetInRun(start, actions, n, id);
    }
  }

  lemma SameReset(start: Bytes, actions: seq<Action>, m: nat, n: nat, id: nat)
    requires m <= |actions|
    ensures ResetSawOthers(start, actions[..m], n, id) <==> n < m && ResetSawOthers(start, actions, n, id)
  {
    hide Run;
    if n < m {
      assert actions[..m][..n] == actions[..n] && actions[..m][n] == actions[n];
    }
  }

  lemma ResetInRun(start: Bytes, actions: seq<Action>, n: nat, id: nat)
    requires ResetSawOthers(start, actions, n, id)
    ensures n < |actions|
  {
  }

  lemma SeenWindow(start: Bytes, actions: seq<Action>, id: nat)
    requires Run(Start(start), actions).Some? && SomeResetSaw(start, actions, id)
    ensures id <= Run(Start(start), actions).value.windows
  {
    var n :| ResetSawOthers(start, actions, n, id);
    WindowsGrow(start, actions, n);
  }

  lemma {:induction false} WindowsGrow(start: Bytes, actions: seq<Action>, n: nat)
    requires n <= |actions| && Run(Start(start), actions).Some?
    ensures Run(Start(start), actions[..n]).Some?
    ensures Run(Start(start), actions[..n]).value.windows <= Run(Start(start), actions).value.windows
    decreases |actions|
  {
    if n == |actions| {
      assert actions[..n] == actions;
    } else {
      var last := |actions| - 1;
      assert actions[..last][..n] == actions[..n];
      WindowsGrow(start, actions[..last], n);
      OneStepWindows(Run(Start(start), actions[..last]).value, actions[last]);
    }
  }

  lemma OneStepWindows(s: State, a: Action)
    requires Next(s, a).Some?
    ensures s.windows <= Next(s, a).value.windows
  {
  }

  lemma {:induction false} PrecedingSame(h: seq<Write>, g: seq<Write>, id: nat, first: nat, k: nat)
    requires first < k <= |h| && k <= |g|
    requires forall j | 0 <= j < k :: OfWindow(g, id, j) == OfWindow(h, id, j)
    ensures Preceding(g, id, first, k) == Preceding(h, id, first, k)
    decreases k
  {
    hide OfWindow;
    if k > first + 1 { PrecedingSame(h, g, id, first, k - 1); }
  }

  /** Histories with the same contents and the same writes of the window. */
  lemma OvertakenSame(start: Bytes, h: seq<Write>, g: seq<Write>, id: nat, first: nat, last: nat)
    requires first <= last < |h| <= |g|
    requires forall j | 0 <= j < |h| :: g[j].after == h[j].after
    requires forall j | 0 <= j <= last :: OfWindow(g, id, j) == OfWindow(h, id, j)
    ensures Overtaken(start, g, id, first, last) <==> Overtaken(start, h, id, first, last)
  {
    hide OfWindow;
    forall k | first < k <= last
      ensures Preceding(g, id, first, k) == Preceding(h, id, first, k)
      ensures ContentAt(start, g, k) == ContentAt(start, h, k)
    {
      PrecedingSame(h, g, id, first, k);
    }
    hide ContentAt;
  }

  /** One write more in the window. */
  lemma OvertakenMore(start: Bytes, h: seq<Write>, id: nat, first: nat, was: nat, last: nat)
    requires first <= was < last < |h| && OfWindow(h, id, last)
    requires forall j | was < j < last :: !OfWindow(h, id, j)
    ensures Overtaken(start, h, id, first, last) <==>
            Overtaken(start, h, id, first, was) || ContentAt(start, h, last) != h[Preceding(h, id, first, last)].after
  {
    hide OfWindow, ContentAt, Preceding;
  }

  lemma SpansUnique(h: seq<Write>, id: nat, first: nat, last: nat, f: nat, l: nat)
    requires Spans(h, id, first, last) && Spans(h, id, f, l)
    ensures first == f && last == l
  {
  }

  lemma StepTells(start: Bytes, s: State, t: State, a: Action, id: nat, first: nat, last: nat, before: bool)
    requires FileInv(start, s) && Next(s, a) == Some(t) && id > 0 && Spans(t.history, id, first, last)
    requires forall f, l | Spans(s.history, id, f, l) :: Overtaken(start, s.history, id, f, l) <==> before
    requires before ==> id <= s.windows
    ensures Overtaken(start, t.history, id, first, last) <==> before || SeesOthers(s, a, id)
  {
    if a.Arm? {
      ArmTellsOf(start, s, t, id, first, last, before);
    } else {
      hide Next, FileInv, Overtaken, Spans, OfWindow;
      OtherSteps(s, t, a, id);
      SameSpans(s.history, t.history, id, first, last);
      SpansInOrder(s.history, id, first, last);
      OvertakenSame(start, s.history, t.history, id, first, last);
    }
  }

  lemma SpansInOrder(h: seq<Write>, id: nat, first: nat, last: nat)
    requires Spans(h, id, first, last)
    ensures first <= last < |h|
  {
  }

  /** Without a reset no write is given to a window. */
  lemma OtherSteps(s: State, t: State, a: Action, id: nat)
    requires Next(s, a) == Some(t) && !a.Arm? && id > 0
    ensures |s.history| <= |t.history| && forall j | 0 <= j < |s.history| :: t.history[j] == s.history[j]
    ensures forall j: nat :: OfWindow(t.history, id, j) == OfWindow(s.history, id, j)
  {
  }

  lemma ArmTellsOf(start: Bytes, s: State, t: State, id: nat, first: nat, last: nat, before: bool)
    requires FileInv(start, s) && Next(s, Arm) == Some(t) && id > 0 && Spans(t.history, id, first, last)
    requires forall f, l | Spans(s.history, id, f, l) :: Overtaken(start, s.history, id, f, l) <==> before
    requires before ==> id <= s.windows
    ensures Overtaken(start, t.history, id, first, last) <==> before || SeesOthers(s, Arm, id)
  {
    ArmedHistory(s, t, id);
    LastIsNew(start, s, t);
    if id != t.windows {
      ArmedElsewhere(s, t, id, first, last);
      hide Next, FileInv, Overtaken, Spans, OfWindow;
      SpansInOrder(s.history, id, first, last);
      OvertakenSame(start, s.history, t.history, id, first, last);
    } else if s.window.None? {
      NewWindow(start, s, t, id, first, last);
    } else {
      SameWindow(start, s, t, first, last, before);
    }
  }

  lemma LastIsNew(start: Bytes, s: State, t: State)
    requires FileInv(start, s) && Next(s, Arm) == Some(t)
    ensures var at := |s.history| - 1;
      && at >= 0 && ClientWrite(s.history, at) && s.history[at].window == 0 && OfWindow(t.history, t.windows, at)
  {
    assert HolderOk(start, s);
    hide HistoryOk, WindowsOk, Owned;
  }

  lemma NewWindow(start: Bytes, s: State, t: State, id: nat, first: nat, last: nat)
    requires FileInv(start, s) && Next(s, Arm) == Some(t) && s.window.None? && id == t.windows && Spans(t.history, id, first, last)
    ensures first == last && !Overtaken(start, t.history, id, first, last)
  {
    assert Owned(s.history, s.windows, true) && id == s.windows + 1;
    ArmedHistory(s, t, id);
    LastIsNew(start, s, t);
    hide Next, FileInv, HistoryOk, WindowsOk;
    assert forall j: nat | j < |s.history| - 1 :: !OfWindow(t.history, id, j);
    assert OfWindow(t.history, id, first) && OfWindow(t.history, id, last);
  }

  lemma SameWindow(start: Bytes, s: State, t: State, first: nat, last: nat, before: bool)
    requires FileInv(start, s) && Next(s, Arm) == Some(t) && s.window.Some? && Spans(t.history, t.windows, first, last)
    requires forall f, l | Spans(s.history, t.windows, f, l) :: Overtaken(start, s.history, t.windows, f, l) <==> before
    ensures t.windows == s.windows
    ensures Overtaken(start, t.history, t.windows, first, last) <==> before || SeesOthers(s, Arm, t.windows)
  {
    var at, id, w := |s.history| - 1, t.windows, s.window.value;
    ArmedHistory(s, t, id);
    LastIsNew(start, s, t);
    ArmTellsIn(start, s);
    WindowSpans(start, s);
    assert !OfWindow(s.history, id, at);
    hide Next, FileInv, Overtaken, ContentAt, Spans, OfWindow;
    ArmedSpan(s, t, id, first, last, w);
    OvertakenSame(start, s.history, t.history, id, first, w.last);
    PrecedingSame(s.history, t.history, id, first, at);
    OvertakenMore(start, t.history, id, first, w.last, at);
    SameContent(start, s.history, t.history, at);
  }

  lemma WindowSpans(start: Bytes, s: State)
    requires FileInv(start, s) && s.window.Some?
    ensures s.windows > 0 && Spans(s.history, s.windows, s.window.value.first, s.window.value.last)
    ensures s.window.value.first <= s.window.value.last < |s.history|
  {
    hide HistoryOk, Owned;
    assert WindowOf(start, s.history, s.windows, s.window.value);
  }

  lemma SameContent(start: Bytes, h: seq<Write>, g: seq<Write>, k: nat)
    requires k <= |h| && k <= |g| && forall j | 0 <= j < k :: g[j].after == h[j].after
    ensures ContentAt(start, g, k) == ContentAt(start, h, k)
  {
  }

  lemma ArmedHistory(s: State, t: State, id: nat)
    requires Next(s, Arm) == Some(t) && id > 0
    ensures |s.history| > 0 && |t.history| == |s.history| && t.windows == if s.window.None? then s.windows + 1 else s.windows
    ensures forall j | 0 <= j < |s.history| :: t.history[j].after == s.history[j].after
    ensures forall j: nat | j < |s.history| - 1 :: OfWindow(t.history, id, j) == OfWindow(s.history, id, j)
  {
  }

  lemma ArmedElsewhere(s: State, t: State, id: nat, first: nat, last: nat)
    requires Next(s, Arm) == Some(t) && id > 0 && id != t.windows && Spans(t.history, id, first, last)
    requires |s.history| > 0 && ClientWrite(s.history, |s.history| - 1) && s.history[|s.history| - 1].window == 0
    ensures Spans(s.history, id, first, last) && last < |s.history|
    ensures forall j: nat | j < |s.history| :: OfWindow(t.history, id, j) == OfWindow(s.history, id, j)
  {
    assert forall j: nat :: OfWindow(t.history, id, j) == OfWindow(s.history, id, j);
    hide Next;
    SameSpans(s.history, t.history, id, first, last);
  }

  /** Where a window's writes lie depends on which writes are the window's. */
  lemma SameSpans(h: seq<Write>, g: seq<Write>, id: nat, first: nat, last: nat)
    requires Spans(g, id, first, last)
    requires forall j: nat :: OfWindow(g, id, j) == OfWindow(h, id, j)
    ensures Spans(h, id, first, last) && last < |h|
  {
    assert OfWindow(g, id, first) && OfWindow(g, id, last);
    forall j | 0 <= j < |h| && ClientWrite(h, j) && h[j].window == id ensures first <= j <= last {
      assert OfWindow(h, id, j);
    }
  }

  lemma ArmedSpan(s: State, t: State, id: nat, first: nat, last: nat, w: Window)
    requires Spans(t.history, id, first, last) && Spans(s.history, id, w.first, w.last)
    requires |s.history| > 0 && |t.history| == |s.history| && OfWindow(t.history, id, |s.history| - 1) && !OfWindow(s.history, id, |s.history| - 1)
    requires forall j: nat | j < |s.history| - 1 :: OfWindow(t.history, id, j) == OfWindow(s.history, id, j)
    ensures first == w.first && last == |s.history| - 1 && w.last < last
    ensures forall j | w.last < j < last :: !OfWindow(t.history, id, j)
  {
    assert OfWindow(s.history, id, w.first) && OfWindow(s.history, id, w.last);
    assert OfWindow(t.history, id, first) && OfWindow(t.history, id, last);
  }

  lemma ArmTellsIn(start: Bytes, s: State)
    requires FileInv(start, s) && s.holder.Unarmed? && s.window.Some?
    ensures var k := |s.history| - 1;
      && k >= 0 && s.window.value.first < k
      && Next(s, Arm).Some? && OfWindow(Next(s, Arm).value.history, s.windows, k)
      && (s.holder.previous != s.window.value.written <==>
          ContentAt(start, s.history, k) != s.history[Preceding(s.history, s.windows, s.window.value.first, k)].after)
  {
    var w, k := s.window.value, |s.history| - 1;
    assert WindowOf(start, s.history, s.windows, w) && HolderOk(start, s);
    assert ClientWrite(s.history, k) && s.history[k].window == 0;
    hide FileInv, HistoryOk, WindowsOk, Owned, ContentAt;
    PrecedingIsLast(s.history, s.windows, w.first, w.last, k);
  }

  lemma PrecedingIsLast(history: seq<Write>, id: nat, first: nat, last: nat, k: nat)
    requires Spans(history, id, first, last) && k < |history| && !OfWindow(history, id, k)
    requires forall j | k < j < |history| :: !OfWindow(history, id, j)
    ensures last != k && (last < k ==> Preceding(history, id, first, k) == last)
  {
    if last < k {
      var p := Preceding(history, id, first, k);
      assert OfWindow(history, id, last) && OfWindow(history, id, p);
    }
  }

  /** While a window is open (one value here for the three debounce fields) a fire is
      coming, and no timer is set while none is; a client write not yet covered by a reload attempt
      always has one coming; and attempts number at most twice the client writes. */
  lemma DebounceCovers(start: Bytes, actions: seq<Action>)
    requires Run(Start(start), actions).Some?
    ensures var s := Run(Start(start), actions).value;
      && (s.window.Some? ==> s.live || s.started > 0)
      && (s.window.None? ==> !s.live)
      && (s.dirty ==> s.holder.Unarmed? || s.window.Some? || s.flights != map[])
      && s.attempts <= 2 * ClientWrites(s.history)
  {
    RunKeepsInv(start, actions);
    hide Run, ClientWrites, EarlyFlights, LateFlights;
  }

  /** The run without the fires that found no window open. */
  function WithoutIdleFires(start: Bytes, actions: seq<Action>): seq<Action>
    requires Run(Start(start), actions).Some?
    decreases |actions|
  {
    if actions == [] then []
    else
      var last := |actions| - 1;
      var before := Run(Start(start), actions[..last]).value;
      WithoutIdleFires(start, actions[..last]) +
      if actions[last].Fire? && before.window.None? then [] else [actions[last]]
  }

  /** Up to fires that have started and are still to take effect. */
  ghost predicate AsIf(s: State, t: State) {
    t == s.(started := t.started) && s.started <= t.started
  }

  /** Stale fires that find no window are as if they had never happened: without them
      the run makes the same writes and the same reload attempts, and leaves the same
      file, window, reloads and lock. */
  lemma {:induction false} IdleFiresDoNothing(start: Bytes, actions: seq<Action>)
    requires Run(Start(start), actions).Some?
    ensures var t := Run(Start(start), WithoutIdleFires(start, actions));
      t.Some? && AsIf(Run(Start(start), actions).value, t.value)
    decreases |actions|
  {
    if actions != [] {
      hide AsIf, Next;
      var last := |actions| - 1;
      var s := Run(Start(start), actions[..last]).value;
      IdleFiresDoNothing(start, actions[..last]);
      var shorter := WithoutIdleFires(start, actions[..last]);
      var t := Run(Start(start), shorter).value;
      if actions[last].Fire? && s.window.None? {
        IdleStep(s, t);
        assert shorter + [] == shorter;
      } else {
        SameStep(s, t, actions[last]);
        hide Run;
        Extend(start, shorter, t, actions[last], Next(t, actions[last]).value);
      }
    } else {
      AsItself(Start(start));
    }
  }

  lemma AsItself(s: State)
    ensures AsIf(s, s)
  {
  }

  lemma IdleStep(s: State, t: State)
    requires AsIf(s, t) && s.window.None? && Next(s, Fire).Some?
    ensures AsIf(Next(s, Fire).value, t)
  {
  }

  lemma SameStep(s: State, t: State, a: Action)
    requires AsIf(s, t) && Next(s, a).Some? && !(a.Fire? && s.window.None?)
    ensures Next(t, a).Some? && AsIf(Next(s, a).value, Next(t, a).value)
  {
  }

  lemma Extend(start: Bytes, actions: seq<Action>, s: State, a: Action, t: State)
    requires Run(Start(start), actions) == Some(s) && Next(s, a) == Some(t)
    ensures Run(Start(start), actions + [a]) == Some(t)
  {
    hide Next;
    assert (actions + [a])[..|actions|] == actions;
  }

  /** One client edit without interruption. */
  lemma ClientWriteRuns(start: Bytes, actions: seq<Action>, s: State, edit: Edit) returns (more: seq<Action>, t: State)
    requires Run(Start(start), actions) == Some(s) && s.holder.Free? && edit(s.file).Some?
    ensures Run(Start(start), more) == Some(t)
    ensures var after, at := edit(s.file).value, |s.history|;
            var windows := if s.window.Some? then s.windows else s.windows + 1;
      t == s.(file := after, dirty := true, live := true, windows := windows,
              window := Some(if s.window.Some? then s.window.value.(written := after, last := at) else Window(s.file, after, at, at)),
              history := s.history + [Edited(Client, edit, after, windows)])
  {
    hide Run;
    more, t := actions, s;
    var u := Next(t, Lock(Client, edit)).value;
    Extend(start, more, t, Lock(Client, edit), u);
    more, t, u := more + [Lock(Client, edit)], u, Next(u, Backup).value;
    Extend(start, more, t, Backup, u);
    more, t, u := more + [Backup], u, Next(u, WriteFile).value;
    Extend(start, more, t, WriteFile, u);
    more, t, u := more + [WriteFile], u, Next(u, Arm).value;
    Extend(start, more, t, Arm, u);
    more, t, u := more + [Arm], u, Next(u, Unlock).value;
    Extend(start, more, t, Unlock, u);
    more, t := more + [Unlock], u;
  }

  /** One manager edit without interruption. */
  lemma ManagerWriteRuns(start: Bytes, actions: seq<Action>, s: State, edit: Edit) returns (more: seq<Action>, t: State)
    requires Run(Start(start), actions) == Some(s) && s.holder.Free? && edit(s.file).Some?
    ensures Run(Start(start), more) == Some(t)
    ensures t == s.(file := edit(s.file).value, history := s.history + [Edited(Manager, edit, edit(s.file).value, 0)])
  {
    hide Run;
    more, t := actions, s;
    var u := Next(t, Lock(Manager, edit)).value;
    Extend(start, more, t, Lock(Manager, edit), u);
    more, t, u := more + [Lock(Manager, edit)], u, Next(u, WriteFile).value;
    Extend(start, more, t, WriteFile, u);
    more, t, u := more + [WriteFile], u, Next(u, Unlock).value;
    Extend(start, more, t, Unlock, u);
    more, t := more + [Unlock], u;
  }

  /** The open window's reload fails while its last bytes are still on disk. */
  lemma WindowFails(start: Bytes, actions: seq<Action>, s: State) returns (more: seq<Action>, t: State)
    requires Run(Start(start), actions) == Some(s) && s.holder.Free? && s.window.Some? && s.live
    requires s.file == s.window.value.written != s.window.value.original
    ensures Run(Start(start), more) == Some(t)
    ensures var w := s.window.value;
      t.file == w.original && t.history == s.history + [Restored(s.windows, w.first, w.last, w.original)]
  {
    hide Run;
    more, t := actions, s;
    var id, u := s.windows, Next(t, Expire).value;
    Extend(start, more, t, Expire, u);
    more, t, u := more + [Expire], u, Next(u, Fire).value;
    Extend(start, more, t, Fire, u);
    more, t, u := more + [Fire], u, Next(u, Reload(id, false)).value;
    Extend(start, more, t, Reload(id, false), u);
    more, t, u := more + [Reload(id, false)], u, Next(u, Check(id)).value;
    Extend(start, more, t, Check(id), u);
    more, t, u := more + [Check(id)], u, Next(u, Restore).value;
    Extend(start, more, t, Restore, u);
    more, t := more + [Restore], u;
  }

  /** The rollback is meant never to discard another writer's newer config. That
      fails for a manager write between two client writes of one window: below the
      manager's "1m" is on disk when the client builds "1m2" on it, the reload of
      that fails, and the file goes back to the "0" from before the window. Bytes
      written after the window's last write are safe by `RollbackIsExact`. */
  lemma ManagerWriteRolledBack() returns (actions: seq<Action>)
    ensures var s := Run(Start("0"), actions);
      && s.Some? && s.value.file == "0" && |s.value.history| == 4
      && s.value.history[1].Edited? && s.value.history[1].who.Manager? && s.value.history[1].after == "1m"
      && s.value.history[3] == Restored(1, 0, 2, "0") && OthersLost("0", s.value.history, 1, 0, 2)
  {
    var s := Start("0");
    actions := [];
    hide Run;
    assert Run(Start("0"), []) == Some(s) by { RunNothing(s); }
    actions, s := ClientWriteRuns("0", actions, s, (b: Bytes) => Some("1"));
    actions, s := ManagerWriteRuns("0", actions, s, (b: Bytes) => Some(b + "m"));
    assert s.file == "1m";
    actions, s := ClientWriteRuns("0", actions, s, (b: Bytes) => Some(b + "2"));
    actions, s := WindowFails("0", actions, s);
    var h := s.history;
    assert Solo("0", h, 1, 0, 0) == Some("0");
    assert Solo("0", h, 1, 0, 1) == Some("1");
    assert Solo("0", h, 1, 0, 2) == Some("1");
    assert Solo("0", h, 1, 0, 3) == Some("1" + "2");
    assert h[2].after[1] == 'm' && ("1" + "2")[1] == '2';
  }

  /** A window that was overtaken may lose nothing: below the client builds on the
      manager's "1m", the manager takes its change out again, and the "123" that is
      rolled back is what the client's edits alone make of "0". */
  lemma ChangeTakenOutAgain() returns (actions: seq<Action>)
    ensures var s := Run(Start("0"), actions);
      && s.Some? && s.value.file == "0" && |s.value.history| == 6 && s.value.history[5] == Restored(1, 0, 4, "0")
      && Overtaken("0", s.value.history, 1, 0, 4) && !OthersLost("0", s.value.history, 1, 0, 4)
  {
    var s := Start("0");
    actions := [];
    hide Run;
    assert Run(Start("0"), []) == Some(s) by { RunNothing(s); }
    actions, s := ClientWriteRuns("0", actions, s, (b: Bytes) => Some("1"));
    actions, s := ManagerWriteRuns("0", actions, s, (b: Bytes) => Some(b + "m"));
    assert s.file == "1m";
    actions, s := ClientWriteRuns("0", actions, s, (b: Bytes) => Some(b + "2"));
    assert s.file == "1m2";
    actions, s := ManagerWriteRuns("0", actions, s, (b: Bytes) => Some("12"));
    actions, s := ClientWriteRuns("0", actions, s, (b: Bytes) => Some(b + "3"));
    assert s.file == "123";
    actions, s := WindowFails("0", actions, s);
    var h := s.history;
    assert Solo("0", h, 1, 0, 0) == Some("0");
    assert Solo("0", h, 1, 0, 1) == Some("1");
    assert Solo("0", h, 1, 0, 2) == Some("1");
    assert "1" + "2" == "12" && "12" + "3" == "123";
    assert Solo("0", h, 1, 0, 3) == Some("12");
    assert Solo("0", h, 1, 0, 4) == Some("12");
    assert Solo("0", h, 1, 0, 5) == Some("123");
    assert Preceding(h, 1, 0, 2) == 0 && ContentAt("0", h, 2) == "1m" && |"1m"| != |"1"|;
    assert OfWindow(h, 1, 2);
  }

  lemma RunNothing(s: State)
    ensures Run(s, []) == Some(s)
  {
  }
}
