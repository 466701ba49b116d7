/**
 The window's job state: blocking work runs on workers, whose results arrive in any order
 and drive the flags that gate the next background refresh.
 */
module Gui {
  import opened Bytes

  type Key = (string, string)

  datatype Row = Row(key: Key, buttonRequired: bool, period: u16, code: Option<string>)

  /** The kinds of work handed to workers. */
  datatype Job = Load | Refresh | Touch(key: Key) | Command

  datatype JobResult =
    | Loaded(rows: seq<Row>, serial: Option<string>)
    | Refreshed(rows: seq<Row>, serial: Option<string>)
    | Disconnected
    | TouchCode(key: Key, code: string)
    | Success
    | Failure

  /** What each kind of work can end with. */
  predicate Produces(job: Job, r: JobResult) {
    match job
    case Load => r.Loaded? || r.Failure?
    case Refresh => r.Refreshed? || r.Disconnected?
    case Touch(k) => (r.TouchCode? && r.key == k) || r.Failure?
    case Command => r.Success? || r.Failure?
  }

  /** A result in the channel, with the work it came from. */
  datatype Message = Message(job: Job, result: JobResult)

  datatype GuiState = GuiState(
    loaded: bool,
    refreshing: bool,
    busy: bool,
    rows: seq<Row>,
    serial: Option<string>,
    touchCodes: map<Key, string>,
    nextRefreshAt: real,
    running: multiset<Job>,
    channel: seq<Message>)

  // ------------------------------------------------------------------- clock

  /** The smallest positive period among the rows. */
  function MinPeriod(rows: seq<Row>): (p: Option<nat>)
    ensures p.None? <==> forall i :: 0 <= i < |rows| ==> rows[i].period == 0
    ensures p.Some? ==> p.value > 0 && forall i :: 0 <= i < |rows| && rows[i].period > 0 ==> p.value <= rows[i].period
    ensures p.Some? ==> exists i :: 0 <= i < |rows| && rows[i].period == p.value
  {
    if rows == [] then None
    else
      var rest := MinPeriod(rows[1..]);
      assert forall i :: 0 <= i < |rows| - 1 ==> rows[1..][i] == rows[i + 1];
      assert forall i :: 1 <= i < |rows| ==> rows[i] == rows[1..][i - 1];
      var p := rows[0].period;
      if p == 0 || (rest.Some? && rest.value <= p) then rest else Some(p)
  }

  function Shortest(rows: seq<Row>): (p: nat)
    ensures p > 0
  {
    match MinPeriod(rows) case None => 30 case Some(p) => p
  }

  function NextRefresh(rows: seq<Row>, now: real): real {
    var shortest := Shortest(rows);
    var untilBoundary := (shortest - now.Floor % shortest) as real + 0.4;
    now + if untilBoundary < 5.0 then untilBoundary else 5.0
  }

  // ------------------------------------------------------------------- steps

  function Spawned(s: GuiState, job: Job): GuiState {
    s.(busy := true, running := s.running + multiset{job})
  }

  function Reloaded(s: GuiState): GuiState {
    Spawned(s.(loaded := false, touchCodes := map[]), Load)
  }

  function Finished(s: GuiState, job: Job, result: JobResult): GuiState
    requires job in s.running
  {
    s.(running := s.running - multiset{job}, channel := s.channel + [Message(job, result)])
  }

  function RefreshStarted(s: GuiState): GuiState {
    if s.refreshing || !s.loaded then s
    else s.(refreshing := true, running := s.running + multiset{Refresh})
  }

  /** The rows a successful read brought. */
  function Showing(s: GuiState, rows: seq<Row>, serial: Option<string>, now: real): GuiState {
    s.(busy := false, loaded := true, refreshing := false, rows := rows, serial := serial,
       nextRefreshAt := NextRefresh(rows, now))
  }

  /** Stale rows and codes go when the key does. */
  function Unplugged(s: GuiState, now: real): GuiState {
    if s.rows != [] || s.serial.Some? then
      s.(busy := false, refreshing := false, rows := [], serial := None, touchCodes := map[],
         nextRefreshAt := NextRefresh([], now))
    else
      s.(busy := false, refreshing := false, nextRefreshAt := NextRefresh(s.rows, now))
  }

  /** One result taken off the channel. */
  function Handled(s: GuiState, r: JobResult, now: real): GuiState {
    match r
    case Loaded(rows, serial) => Showing(s, rows, serial, now)
    case Refreshed(rows, serial) => Showing(s, rows, serial, now)
    case Disconnected => Unplugged(s, now)
    case TouchCode(k, code) => s.(busy := false, touchCodes := s.touchCodes[k := code])
    case Success => Reloaded(s)
    case Failure => s.(busy := false, loaded := true, refreshing := false, nextRefreshAt := NextRefresh(s.rows, now))
  }

  function Received(s: GuiState, now: real): GuiState
    requires s.channel != []
  {
    Handled(s.(channel := s.channel[1..]), s.channel[0].result, now)
  }

  /** Handling a result never touches the channel. */
  lemma ChannelAfter(s: GuiState, r: JobResult, now: real)
    ensures Handled(s, r, now).channel == s.channel
  {
    hide NextRefresh;
  }

  /** All results of the channel, in order; the clock shows `clock(i)` for the i-th of them. */
  function Drained(s: GuiState, clock: nat -> real, i: nat := 0): GuiState
    decreases |s.channel|
  {
    if s.channel == [] then s
    else
      ChannelAfter(s.(channel := s.channel[1..]), s.channel[0].result, clock(i));
      Drained(Received(s, clock(i)), clock, i + 1)
  }

  /** The gate for the next background refresh. */
  predicate GateOpen(s: GuiState, now: real) {
    s.loaded && !s.refreshing && !s.busy && now >= s.nextRefreshAt
  }

  function Gated(s: GuiState, now: real): GuiState {
    if GateOpen(s, now) then RefreshStarted(s) else s
  }

  /** The state after `reload` at start-up. */
  const INITIAL: GuiState := Reloaded(GuiState(false, false, false, [], None, map[], 0.0, multiset{}, []))

  // ---------------------------------------------------------------- the class

  class App {
    var loaded: bool
    var refreshing: bool
    var busy: bool
    var rows: seq<Row>
    var serial: Option<string>
    var touchCodes: map<Key, string>
    var nextRefreshAt: real
    var running: multiset<Job>
    var channel: seq<Message>

    ghost function State(): GuiState
      reads this
    {
      GuiState(loaded, refreshing, busy, rows, serial, touchCodes, nextRefreshAt, running, channel)
    }

    constructor ()
      ensures State() == INITIAL
    {
      loaded, refreshing, busy, rows, serial := false, false, false, [], None;
      touchCodes, nextRefreshAt, running, channel := map[], 0.0, multiset{}, [];
      new;
      Reload();
    }

    /** Hands a job to a worker and shows that the window is busy. */
    method Spawn(job: Job)
      modifies this
      ensures State() == Spawned(old(State()), job)
    {
      busy := true;
      running := running + multiset{job};
    }

    method Reload()
      modifies this
      ensures State() == Reloaded(old(State()))
    {
      loaded := false;
      touchCodes := map[];
      Spawn(Load);
    }

    method ScheduleNextRefresh(now: real)
      modifies this`nextRefreshAt
      ensures nextRefreshAt == NextRefresh(rows, now)
    {
      var shortest := Shortest(rows);
      var intoPeriod := now.Floor % shortest;
      var untilBoundary := (shortest - intoPeriod) as real + 0.4;
      var interval := if untilBoundary < 5.0 then untilBoundary else 5.0;
      nextRefreshAt := now + interval;
    }

    method RefreshCodes()
      modifies this
      ensures State() == RefreshStarted(old(State()))
    {
      if refreshing || !loaded {
        return;
      }
      refreshing := true;
      running := running + multiset{Refresh};
    }

    method Show(newRows: seq<Row>, newSerial: Option<string>, now: real)
      modifies this
      ensures State() == Showing(old(State()), newRows, newSerial, now)
    {
      hide NextRefresh;
      busy, rows, serial, loaded, refreshing := false, newRows, newSerial, true, false;
      ScheduleNextRefresh(now);
    }

    method Unplug(now: real)
      modifies this
      ensures State() == Unplugged(old(State()), now)
    {
      hide NextRefresh;
      busy, refreshing := false, false;
      if rows != [] || serial.Some? {
        rows, serial, touchCodes := [], None, map[];
      }
      ScheduleNextRefresh(now);
    }

    method Handle(res: JobResult, now: real)
      modifies this
      ensures State() == Handled(old(State()), res, now)
    {
      hide NextRefresh, Showing, Unplugged;
      match res {
        case Loaded(rs, sn) =>
          Show(rs, sn, now);
        case Refreshed(rs, sn) =>
          Show(rs, sn, now);
        case Disconnected =>
          Unplug(now);
        case TouchCode(k, code) =>
          busy := false;
          touchCodes := touchCodes[k := code];
        case Success =>
          busy := false;
          Reload();
        case Failure =>
          busy, loaded, refreshing := false, true, false;
          ScheduleNextRefresh(now);
      }
    }

    method DrainJobs(clock: nat -> real)
      modifies this
      ensures State() == Drained(old(State()), clock)
    {
      hide Handled;
      var i: nat := 0;
      while channel != []
        invariant Drained(State(), clock, i) == Drained(old(State()), clock)
        decreases |channel|
      {
        var res := channel[0].result;
        channel := channel[1..];
        ChannelAfter(State(), res, clock(i));
        Handle(res, clock(i));
        i := i + 1;
      }
    }

    /** The part of a frame that drains results and opens the refresh gate. */
    method Update(clock: nat -> real, now: real)
      modifies this
      ensures State() == Gated(Drained(old(State()), clock), now)
    {
      DrainJobs(clock);
      if loaded && !refreshing && !busy && now >= nextRefreshAt {
        RefreshCodes();
      }
    }
  }

  // -------------------------------------------------------------- whole runs

  /**
   What can happen next, in any order: a worker ends, the window takes one result or
   tries the gate, or the user reloads, reads a touch code or starts a command.
   */
  datatype Action =
    | WorkerEnds(job: Job, result: JobResult)
    | TakeResult(now: real)
    | TryGate(now: real)
    | UserReload
    | UserSpawn(job: Job)

  predicate Enabled(s: GuiState, a: Action) {
    match a
    case WorkerEnds(job, r) => job in s.running && Produces(job, r)
    case TakeResult(_) => s.channel != []
    case TryGate(_) => true
    case UserReload => true
    case UserSpawn(job) => (job.Touch? && CanRead(s, job.key)) || job.Command?
  }

  /** The window offers to read the code of `k`: a row on show needs a touch and has no code yet. */
  predicate CanRead(s: GuiState, k: Key) {
    s.loaded && k !in s.touchCodes &&
    exists i :: 0 <= i < |s.rows| && s.rows[i].key == k && s.rows[i].buttonRequired && s.rows[i].code.None?
  }

  function Step(s: GuiState, a: Action): GuiState
    requires Enabled(s, a)
  {
    match a
    case WorkerEnds(job, r) => Finished(s, job, r)
    case TakeResult(now) => Received(s, now)
    case TryGate(now) => Gated(s, now)
    case UserReload => Reloaded(s)
    case UserSpawn(job) => Spawned(s, job)
  }

  ghost predicate Possible(s: GuiState, run: seq<Action>)
    decreases |run|
  {
    run == [] || (Enabled(s, run[0]) && Possible(Step(s, run[0]), run[1..]))
  }

  ghost function Final(s: GuiState, run: seq<Action>): GuiState
    requires Possible(s, run)
    decreases |run|
  {
    if run == [] then s else Final(Step(s, run[0]), run[1..])
  }

  /** The results of `job` waiting in the channel. */
  function Waiting(channel: seq<Message>, job: Job): nat {
    if channel == [] then 0 else (if channel[0].job == job then 1 else 0) + Waiting(channel[1..], job)
  }

  /** Runs of `job` whose result the window has not taken yet. */
  function InFlight(s: GuiState, job: Job): nat {
    s.running[job] + Waiting(s.channel, job)
  }

  ghost predicate SpawnedInFlight(s: GuiState) {
    exists job :: job != Refresh && InFlight(s, job) > 0
  }

  ghost predicate Inv(s: GuiState) {
    && (forall i :: 0 <= i < |s.channel| ==> Produces(s.channel[i].job, s.channel[i].result))
    && (!s.loaded ==> InFlight(s, Load) > 0)
    && (s.refreshing ==> InFlight(s, Refresh) > 0)
    && (s.busy ==> SpawnedInFlight(s))
  }

  lemma {:induction false} WaitingAppend(channel: seq<Message>, m: Message, job: Job)
    ensures Waiting(channel + [m], job) == Waiting(channel, job) + if m.job == job then 1 else 0
  {
    if channel != [] {
      assert (channel + [m])[1..] == channel[1..] + [m];
      WaitingAppend(channel[1..], m, job);
    }
  }

  lemma FinishKeepsFlights(s: GuiState, job: Job, r: JobResult, other: Job)
    requires job in s.running
    ensures InFlight(Finished(s, job, r), other) == InFlight(s, other)
  {
    WaitingAppend(s.channel, Message(job, r), other);
  }

  /** Taking a result removes one flight, and a `Success` starts a load. */
  lemma FlightsAfterTaking(s: GuiState, now: real, job: Job)
    requires s.channel != []
    ensures InFlight(Received(s, now), job) ==
            InFlight(s, job) - (if s.channel[0].job == job then 1 else 0)
                             + (if s.channel[0].result.Success? && job == Load then 1 else 0)
  {
    hide NextRefresh;
  }

  lemma TakingKeepsInv(s: GuiState, now: real)
    requires Inv(s) && s.channel != []
    ensures Inv(Received(s, now))
  {
    hide NextRefresh, InFlight;
    var t := Received(s, now);
    var m := s.channel[0];
    assert Produces(m.job, m.result);
    FlightsAfterTaking(s, now, Load);
    FlightsAfterTaking(s, now, Refresh);
    if t.busy {
      assert m.result.Success? && InFlight(t, Load) > 0;
    }
    assert forall i :: 0 <= i < |t.channel| ==> t.channel[i] == s.channel[i + 1];
  }

  lemma EndingKeepsInv(s: GuiState, job: Job, r: JobResult)
    requires Inv(s) && job in s.running && Produces(job, r)
    ensures Inv(Finished(s, job, r))
  {
    hide InFlight, Produces;
    var t := Finished(s, job, r);
    FinishKeepsFlights(s, job, r, Load);
    FinishKeepsFlights(s, job, r, Refresh);
    if t.busy {
      var other :| other != Refresh && InFlight(s, other) > 0;
      FinishKeepsFlights(s, job, r, other);
    }
  }

  lemma SpawningKeepsInv(s: GuiState, job: Job)
    requires Inv(s) && job != Refresh
    ensures Inv(Spawned(s, job))
  {
    assert InFlight(Spawned(s, job), job) > 0;
  }

  lemma ReloadingKeepsInv(s: GuiState)
    requires Inv(s)
    ensures Inv(Reloaded(s))
  {
    assert InFlight(Reloaded(s), Load) > 0;
  }

  lemma GateKeepsInv(s: GuiState, now: real)
    requires Inv(s)
    ensures Inv(Gated(s, now))
  {
    if s.busy {
      var job :| job != Refresh && InFlight(s, job) > 0;
      assert InFlight(Gated(s, now), job) > 0;
    }
  }

  lemma StepKeepsInv(s: GuiState, a: Action)
    requires Inv(s) && Enabled(s, a)
    ensures Inv(Step(s, a))
  {
    hide Inv, Received, Gated, Reloaded, Spawned, Finished;
    match a {
      case WorkerEnds(job, r) => EndingKeepsInv(s, job, r);
      case TakeResult(now) => TakingKeepsInv(s, now);
      case TryGate(now) => GateKeepsInv(s, now);
      case UserReload => ReloadingKeepsInv(s);
      case UserSpawn(job) => SpawningKeepsInv(s, job);
    }
  }

  /** Every reachable state, whatever the interleaving, satisfies the invariant. */
  lemma {:induction false} RunKeepsInv(s: GuiState, run: seq<Action>)
    requires Inv(s) && Possible(s, run)
    ensures Inv(Final(s, run))
    decreases |run|
  {
    hide Inv;
    if run != [] {
      StepKeepsInv(s, run[0]);
      RunKeepsInv(Step(s, run[0]), run[1..]);
    }
  }

  ghost predicate NothingInFlight(s: GuiState) {
    forall job :: InFlight(s, job) == 0
  }

  lemma InitialInv()
    ensures Inv(INITIAL)
  {
    assert InFlight(INITIAL, Load) > 0;
  }

  /** The window never wedges: in any reachable state with no work in flight, only the clock holds the gate. */
  lemma NeverWedged(run: seq<Action>, now: real)
    requires Possible(INITIAL, run) && NothingInFlight(Final(INITIAL, run))
    ensures var s := Final(INITIAL, run);
            (GateOpen(s, now) <==> now >= s.nextRefreshAt) &&
            (now >= s.nextRefreshAt ==> InFlight(Gated(s, now), Refresh) == 1)
  {
    InitialInv();
    RunKeepsInv(INITIAL, run);
    var s := Final(INITIAL, run);
    assert InFlight(s, Load) == 0 && InFlight(s, Refresh) == 0 && !SpawnedInFlight(s);
  }

  function TimeOf(a: Action): real {
    match a
    case TakeResult(now) => now
    case TryGate(now) => now
    case _ => 0.0
  }

  lemma NextRefreshBounds(rows: seq<Row>, now: real)
    requires now >= 0.0
    ensures now + 1.4 <= NextRefresh(rows, now) <= now + 5.0
    ensures var p := Shortest(rows); var boundary := (now.Floor / p + 1) * p;
            NextRefresh(rows, now) < now + 5.0 ==>
              boundary as real + 0.4 <= NextRefresh(rows, now) < boundary as real + 1.4
  {
    var p := Shortest(rows);
    var secs := now.Floor;
    assert secs == p * (secs / p) + secs % p;
    assert (secs / p + 1) * p == secs - secs % p + p;
  }

  /** ... and the clock holds it for at most five seconds after its last reading. */
  lemma {:induction false} GateOpensSoon(s: GuiState, run: seq<Action>, latest: real)
    requires Possible(s, run) && s.nextRefreshAt <= latest + 5.0
    requires forall i :: 0 <= i < |run| ==> 0.0 <= TimeOf(run[i]) <= latest
    ensures Final(s, run).nextRefreshAt <= latest + 5.0
    decreases |run|
  {
    hide Step, Enabled, AsSaid;
    if run != [] {
      assert 0.0 <= TimeOf(run[0]) <= latest;
      SchedulesSoon(s, run[0]);
      GateOpensSoon(Step(s, run[0]), run[1..], latest);
    }
  }

  lemma SchedulesSoon(s: GuiState, a: Action)
    requires Enabled(s, a) && TimeOf(a) >= 0.0
    ensures Step(s, a).nextRefreshAt <= TimeOf(a) + 5.0 || Step(s, a).nextRefreshAt == s.nextRefreshAt
  {
    StepSays(s, a, ("", ""));
    hide Step, Enabled, NextRefresh;
    match TakenBy(s, a) {
      case Some(Loaded(rows, _)) => NextRefreshBounds(rows, a.now);
      case Some(Refreshed(rows, _)) => NextRefreshBounds(rows, a.now);
      case Some(Disconnected) => NextRefreshBounds([], a.now);
      case Some(Failure) => NextRefreshBounds(s.rows, a.now);
      case _ =>
    }
  }

  // ------------------------------------------------------- what is on show

  /** The results taken off the channel during a run, in order. */
  ghost function Taken(s: GuiState, run: seq<Action>): seq<JobResult>
    requires Possible(s, run)
    decreases |run|
  {
    if run == [] then []
    else (if run[0].TakeResult? then [s.channel[0].result] else []) + Taken(Step(s, run[0]), run[1..])
  }

  /** The rows and serial number that the last read among `rs` found, if there is one. */
  function LastRead(rs: seq<JobResult>): Option<(seq<Row>, Option<string>)> {
    if rs == [] then None
    else
      var later := LastRead(rs[1..]);
      if later.Some? then later
      else
        match rs[0]
        case Loaded(rows, serial) => Some((rows, serial))
        case Refreshed(rows, serial) => Some((rows, serial))
        case Disconnected => Some(([], None))
        case _ => None
  }

  lemma StepShows(s: GuiState, a: Action)
    requires Enabled(s, a)
    ensures var t := Step(s, a);
            var read := if a.TakeResult? then LastRead([s.channel[0].result]) else None;
            (t.rows, t.serial) == match read case None => (s.rows, s.serial) case Some(r) => r
  {
    hide NextRefresh;
  }

  lemma LastReadCons(r: JobResult, rs: seq<JobResult>)
    ensures LastRead([r] + rs) == if LastRead(rs).Some? then LastRead(rs) else LastRead([r])
  {
    assert ([r] + rs)[1..] == rs;
  }

  /** In every run the window shows what the last read found, and nothing once the key was found gone. */
  lemma {:induction false} ShowsLastRead(s: GuiState, run: seq<Action>)
    requires Possible(s, run)
    ensures (Final(s, run).rows, Final(s, run).serial) ==
            match LastRead(Taken(s, run)) case None => (s.rows, s.serial) case Some(r) => r
    decreases |run|
  {
    hide Step, LastRead;
    if run != [] {
      var t := Step(s, run[0]);
      StepShows(s, run[0]);
      ShowsLastRead(t, run[1..]);
      if run[0].TakeResult? {
        LastReadCons(s.channel[0].result, Taken(t, run[1..]));
      } else {
        assert [] + Taken(t, run[1..]) == Taken(t, run[1..]);
      }
    } else {
      assert LastRead([]) == None by { NoRead(); }
    }
  }

  lemma NoRead()
    ensures LastRead([]) == None
  {
  }

  /** A step that forgets the codes read by touch. */
  predicate Forgets(s: GuiState, a: Action) {
    a.UserReload? ||
    (a.TakeResult? && s.channel != [] &&
     (s.channel[0].result.Success? || (s.channel[0].result.Disconnected? && (s.rows != [] || s.serial.Some?))))
  }

  ghost predicate EverForgets(s: GuiState, run: seq<Action>)
    requires Possible(s, run)
    decreases |run|
  {
    run != [] && (Forgets(s, run[0]) || EverForgets(Step(s, run[0]), run[1..]))
  }

  /** The result `TouchCode(k, code)` is taken in the run, and not forgotten afterwards. */
  ghost predicate TakenAndKept(s: GuiState, run: seq<Action>, k: Key, code: string)
    requires Possible(s, run)
    decreases |run|
  {
    run != [] &&
    var t := Step(s, run[0]);
    (run[0].TakeResult? && s.channel[0].result == TouchCode(k, code) && !EverForgets(t, run[1..])) ||
    TakenAndKept(t, run[1..], k, code)
  }

  predicate Holds(s: GuiState, k: Key, code: string) {
    k in s.touchCodes && s.touchCodes[k] == code
  }

  lemma StepCodes(s: GuiState, a: Action, k: Key, code: string)
    requires Enabled(s, a)
    ensures Holds(Step(s, a), k, code) ==>
              (a.TakeResult? && s.channel[0].result == TouchCode(k, code)) || (Holds(s, k, code) && !Forgets(s, a))
    ensures Forgets(s, a) ==> Step(s, a).touchCodes == map[]
  {
    hide NextRefresh, CanRead, Produces, GateOpen;
  }

  /** A touch code on show was taken off the channel since the last reload, finished command or unplugging. */
  lemma {:induction false} TouchCodesTakenSince(s: GuiState, run: seq<Action>, k: Key, code: string)
    requires Possible(s, run) && Holds(Final(s, run), k, code)
    ensures TakenAndKept(s, run, k, code) || (Holds(s, k, code) && !EverForgets(s, run))
    decreases |run|
  {
    hide Step, Forgets;
    if run != [] {
      TouchCodesTakenSince(Step(s, run[0]), run[1..], k, code);
      StepCodes(s, run[0], k, code);
    }
  }

  // ------------------------------------------- how old a touch code can be

  predicate Shown(s: GuiState) {
    s.rows != [] || s.serial.Some?
  }

  /** The code waits in the channel and no result before it makes the window forget. */
  predicate Outlives(channel: seq<Message>, shown: bool, k: Key, code: string) {
    channel != [] &&
    var rest := channel[1..];
    match channel[0].result
    case TouchCode(_, _) => channel[0].result == TouchCode(k, code) || Outlives(rest, shown, k, code)
    case Loaded(rows, serial) => Outlives(rest, rows != [] || serial.Some?, k, code)
    case Refreshed(rows, serial) => Outlives(rest, rows != [] || serial.Some?, k, code)
    case Disconnected => !shown && Outlives(rest, false, k, code)
    case Success => false
    case Failure => Outlives(rest, shown, k, code)
  }

  ghost predicate Outlived(s: GuiState, k: Key, code: string) {
    Outlives(s.channel, Shown(s), k, code)
  }

  /** Nothing in the channel makes the window forget. */
  predicate Undisturbed(channel: seq<Message>, shown: bool) {
    channel == [] ||
    var rest := channel[1..];
    match channel[0].result
    case TouchCode(_, _) => Undisturbed(rest, shown)
    case Loaded(rows, serial) => Undisturbed(rest, rows != [] || serial.Some?)
    case Refreshed(rows, serial) => Undisturbed(rest, rows != [] || serial.Some?)
    case Disconnected => !shown && Undisturbed(rest, false)
    case Success => false
    case Failure => Undisturbed(rest, shown)
  }

  /**
   A worker that has started may still bring the code: it waits in the channel, or the worker
   runs and its result will find the way free.
   */
  ghost predicate MayArrive(s: GuiState, k: Key, code: string) {
    Outlived(s, k, code) || (Touch(k) in s.running && Undisturbed(s.channel, Shown(s)))
  }

  lemma OutlivesNone(k: Key, code: string)
    ensures !Outlives([], true, k, code) && !Outlives([], false, k, code)
    ensures Undisturbed([], true) && Undisturbed([], false)
  {
  }

  lemma {:induction false} OutlivesAppend(channel: seq<Message>, m: Message, shown: bool, k: Key, code: string)
    ensures Outlives(channel + [m], shown, k, code) <==>
              Outlives(channel, shown, k, code) || (m.result == TouchCode(k, code) && Undisturbed(channel, shown))
    ensures Undisturbed(channel + [m], shown) ==> Undisturbed(channel, shown)
  {
    if channel != [] {
      assert (channel + [m])[1..] == channel[1..] + [m];
      match channel[0].result {
        case Loaded(rows, serial) => OutlivesAppend(channel[1..], m, rows != [] || serial.Some?, k, code);
        case Refreshed(rows, serial) => OutlivesAppend(channel[1..], m, rows != [] || serial.Some?, k, code);
        case Disconnected => OutlivesAppend(channel[1..], m, false, k, code);
        case _ => OutlivesAppend(channel[1..], m, shown, k, code);
      }
    } else {
      assert channel + [m] == [m] && [m][1..] == [];
      OutlivesNone(k, code);
    }
  }

  /** Taking a result that does not make the window forget leaves what outlives it. */
  lemma TakingOutlives(s: GuiState, now: real, k: Key, code: string)
    requires s.channel != [] && !Forgets(s, TakeResult(now))
    ensures Outlived(s, k, code) <==> s.channel[0].result == TouchCode(k, code) || Outlived(Received(s, now), k, code)
    ensures Undisturbed(s.channel, Shown(s)) <==> Undisturbed(Received(s, now).channel, Shown(Received(s, now)))
    ensures Received(s, now).running == s.running
  {
    hide NextRefresh;
  }

  lemma StepArrives(s: GuiState, a: Action, k: Key, code: string)
    requires Enabled(s, a) && !Forgets(s, a) && MayArrive(Step(s, a), k, code)
    ensures MayArrive(s, k, code) || a == UserSpawn(Touch(k))
  {
    hide Outlives, Undisturbed, NextRefresh;
    match a {
      case WorkerEnds(job, r) => OutlivesAppend(s.channel, Message(job, r), Shown(s), k, code);
      case TakeResult(now) => TakingOutlives(s, now, k, code);
      case _ =>
    }
  }

  lemma {:induction false} HeldCodesCameFrom(s: GuiState, run: seq<Action>, k: Key, code: string)
    requires Possible(s, run) && !EverForgets(s, run) && Holds(Final(s, run), k, code)
    ensures Holds(s, k, code) || MayArrive(s, k, code) || UserSpawn(Touch(k)) in run
    decreases |run|
  {
    hide Step, Forgets, Outlived, Undisturbed, Holds;
    if run != [] {
      var t := Step(s, run[0]);
      HeldCodesCameFrom(t, run[1..], k, code);
      StepCodes(s, run[0], k, code);
      if MayArrive(t, k, code) {
        StepArrives(s, run[0], k, code);
      }
      if run[0].TakeResult? && s.channel[0].result == TouchCode(k, code) {
        TakingOutlives(s, run[0].now, k, code);
      }
    }
  }

  /** Taking results one after the other shows a code that outlives them. */
  lemma {:induction false} OutlivedIsShown(s: GuiState, k: Key, code: string) returns (run: seq<Action>)
    requires Outlived(s, k, code)
    ensures Possible(s, run) && !EverForgets(s, run) && Holds(Final(s, run), k, code)
    ensures forall i :: 0 <= i < |run| ==> run[i].TakeResult?
    decreases |s.channel|
  {
    hide NextRefresh, Outlives;
    assert s.channel != [] && !Forgets(s, TakeResult(0.0)) by { OutlivesFirst(s, k, code); }
    var t := Received(s, 0.0);
    TakingOutlives(s, 0.0, k, code);
    ChannelAfter(s.(channel := s.channel[1..]), s.channel[0].result, 0.0);
    run := [];
    if s.channel[0].result != TouchCode(k, code) {
      run := OutlivedIsShown(t, k, code);
    }
    assert ([TakeResult(0.0)] + run)[1..] == run;
    run := [TakeResult(0.0)] + run;
  }

  lemma OutlivesFirst(s: GuiState, k: Key, code: string)
    requires Outlived(s, k, code)
    ensures s.channel != [] && !Forgets(s, TakeResult(0.0))
  {
  }

  /** A worker that runs can end and have its code shown, without being started again. */
  lemma ArrivalIsShown(s: GuiState, k: Key, code: string) returns (run: seq<Action>)
    requires MayArrive(s, k, code)
    ensures Possible(s, run) && !EverForgets(s, run) && Holds(Final(s, run), k, code)
    ensures forall i :: 0 <= i < |run| ==> !run[i].UserSpawn?
  {
    hide Possible, Final, EverForgets, Outlives, Undisturbed, Holds;
    if Outlived(s, k, code) {
      run := OutlivedIsShown(s, k, code);
    } else {
      var end := WorkerEnds(Touch(k), TouchCode(k, code));
      OutlivesAppend(s.channel, Message(Touch(k), TouchCode(k, code)), Shown(s), k, code);
      run := OutlivedIsShown(Step(s, end), k, code);
      StepThen(s, end, run);
      run := [end] + run;
    }
  }

  ghost predicate AlwaysStartedIn(s: GuiState, k: Key, code: string) {
    forall run :: Possible(s, run) && !EverForgets(s, run) && Holds(Final(s, run), k, code) ==>
      UserSpawn(Touch(k)) in run
  }

  /**
   From any state, such as one that has just forgotten its codes, and until the window forgets:
   a code it comes to hold was asked for in that time, so that the whole reading falls into it,
   exactly when no worker started before may still bring it.
   */
  lemma StartedSinceIff(s: GuiState, k: Key, code: string)
    requires !Holds(s, k, code)
    ensures AlwaysStartedIn(s, k, code) <==> !MayArrive(s, k, code)
  {
    hide Possible, Final, EverForgets, MayArrive, Holds;
    if MayArrive(s, k, code) {
      var run := ArrivalIsShown(s, k, code);
      assert !(UserSpawn(Touch(k)) in run);
    } else {
      forall run | Possible(s, run) && !EverForgets(s, run) && Holds(Final(s, run), k, code)
        ensures UserSpawn(Touch(k)) in run
      {
        HeldCodesCameFrom(s, run, k, code);
      }
    }
  }

  /** The state after the last step of the run that forgets, and the run from there. */
  ghost function SinceForgotten(s: GuiState, run: seq<Action>): (GuiState, seq<Action>)
    requires Possible(s, run)
    decreases |run|
  {
    if !EverForgets(s, run) then (s, run) else SinceForgotten(Step(s, run[0]), run[1..])
  }

  lemma {:induction false} SinceForgottenIsSuffix(s: GuiState, run: seq<Action>)
    requires Possible(s, run) && (s.touchCodes == map[] || EverForgets(s, run))
    ensures var (t, rest) := SinceForgotten(s, run);
            t.touchCodes == map[] && Possible(t, rest) && !EverForgets(t, rest) && Final(t, rest) == Final(s, run) &&
            |rest| <= |run| && rest == run[|run| - |rest|..]
    decreases |run|
  {
    hide Step, Forgets;
    if EverForgets(s, run) {
      StepCodes(s, run[0], ("", ""), "");
      SinceForgottenIsSuffix(Step(s, run[0]), run[1..]);
    }
  }

  /** A worker for `Touch(k)` in flight is needed for its code to outlive anything. */
  lemma {:induction false} OutlivesInFlight(channel: seq<Message>, shown: bool, k: Key, code: string)
    requires forall i :: 0 <= i < |channel| ==> Produces(channel[i].job, channel[i].result)
    requires Outlives(channel, shown, k, code)
    ensures Waiting(channel, Touch(k)) > 0
  {
    var rest := channel[1..];
    assert forall i :: 0 <= i < |rest| ==> rest[i] == channel[i + 1];
    assert Produces(channel[0].job, channel[0].result);
    if channel[0].result != TouchCode(k, code) {
      match channel[0].result {
        case Loaded(rows, serial) => OutlivesInFlight(rest, rows != [] || serial.Some?, k, code);
        case Refreshed(rows, serial) => OutlivesInFlight(rest, rows != [] || serial.Some?, k, code);
        case TouchCode(_, _) => OutlivesInFlight(rest, shown, k, code);
        case Disconnected => OutlivesInFlight(rest, shown, k, code);
        case Failure => OutlivesInFlight(rest, shown, k, code);
      }
    }
  }

  /**
   In every run a code on show was asked for since the last reload, finished command or
   unplugging, and so read since, unless a worker started before could still bring it; so it
   was if no touch worker for its entry was in flight then.
   */
  lemma TouchCodesReadSince(run: seq<Action>, k: Key, code: string)
    requires Possible(INITIAL, run) && Holds(Final(INITIAL, run), k, code)
    ensures var (t, rest) := SinceForgotten(INITIAL, run);
            (UserSpawn(Touch(k)) in rest || MayArrive(t, k, code)) &&
            (InFlight(t, Touch(k)) == 0 ==> UserSpawn(Touch(k)) in rest)
  {
    hide Possible, Final, EverForgets, Inv, InFlight, MayArrive;
    SinceForgottenIsSuffix(INITIAL, run);
    var (t, rest) := SinceForgotten(INITIAL, run);
    HeldCodesCameFrom(t, rest, k, code);
    if MayArrive(t, k, code) {
      SinceForgottenInv(INITIAL, run);
      ArrivesInFlight(t, k, code);
    }
  }

  lemma ArrivesInFlight(s: GuiState, k: Key, code: string)
    requires Inv(s) && MayArrive(s, k, code)
    ensures InFlight(s, Touch(k)) > 0
  {
    if Outlived(s, k, code) {
      OutlivesInFlight(s.channel, Shown(s), k, code);
    }
  }

  lemma {:induction false} SinceForgottenInv(s: GuiState, run: seq<Action>)
    requires Possible(s, run) && (Inv(s) || s == INITIAL)
    ensures Inv(SinceForgotten(s, run).0)
    decreases |run|
  {
    hide Inv, Step;
    InitialInv();
    if EverForgets(s, run) {
      StepKeepsInv(s, run[0]);
      SinceForgottenInv(Step(s, run[0]), run[1..]);
    }
  }

  lemma StepThen(s: GuiState, a: Action, run: seq<Action>)
    requires Enabled(s, a) && Possible(Step(s, a), run)
    ensures Possible(s, [a] + run) && Final(s, [a] + run) == Final(Step(s, a), run)
    ensures EverForgets(s, [a] + run) <==> Forgets(s, a) || EverForgets(Step(s, a), run)
    ensures EverForgets(s, [a] + run) ==> SinceForgotten(s, [a] + run) == SinceForgotten(Step(s, a), run)
  {
    hide Step, Forgets;
    assert ([a] + run)[1..] == run;
  }

  /** The code of a row is asked for, then the user reloads; the worker ends first or afterwards. */
  function ReadAcrossReload(k: Key, code: string, first: bool): seq<Action> {
    var end := WorkerEnds(Touch(k), TouchCode(k, code));
    [WorkerEnds(Load, Loaded([Row(k, true, 30, None)], None)), TakeResult(0.0), UserSpawn(Touch(k))] +
    (if first then [end, UserReload] else [UserReload, end]) + [TakeResult(0.0)]
  }

  /** The exception occurs in both its forms: a code asked for before a reload is shown after it. */
  lemma CodeFromBeforeReload(k: Key, code: string, first: bool)
    ensures var run := ReadAcrossReload(k, code, first);
            Possible(INITIAL, run) && Holds(Final(INITIAL, run), k, code) &&
            UserSpawn(Touch(k)) !in SinceForgotten(INITIAL, run).1
  {
    hide NextRefresh, Possible, Final, EverForgets, SinceForgotten;
    var load := WorkerEnds(Load, Loaded([Row(k, true, 30, None)], None));
    var end := WorkerEnds(Touch(k), TouchCode(k, code));
    var s1 := Step(INITIAL, load);
    var s2 := Step(s1, TakeResult(0.0));
    assert s2.rows[0] == Row(k, true, 30, None);
    var s3 := Step(s2, UserSpawn(Touch(k)));
    var tail := AcrossReload(s3, k, code, first);
    StepThen(s2, UserSpawn(Touch(k)), tail);
    var more := [UserSpawn(Touch(k))] + tail;
    StepThen(s1, TakeResult(0.0), more);
    StepThen(INITIAL, load, [TakeResult(0.0)] + more);
    assert ReadAcrossReload(k, code, first) == [load] + ([TakeResult(0.0)] + more);
  }

  /** A waiting code is shown when it is taken, and taking it makes the window forget nothing. */
  lemma TakeCode(s: GuiState, k: Key, code: string)
    requires s.channel == [Message(Touch(k), TouchCode(k, code))]
    ensures var run := [TakeResult(0.0)] + [];
            Possible(s, run) && !EverForgets(s, run) && Holds(Final(s, run), k, code) && SinceForgotten(s, run) == (s, run)
  {
    hide NextRefresh, Possible, Final, EverForgets, SinceForgotten;
    NoStep(Step(s, TakeResult(0.0)));
    StepThen(s, TakeResult(0.0), []);
    NeverForgot(s, [TakeResult(0.0)] + []);
  }

  lemma AcrossReload(s: GuiState, k: Key, code: string, first: bool) returns (run: seq<Action>)
    requires Touch(k) in s.running && s.channel == []
    ensures var end := WorkerEnds(Touch(k), TouchCode(k, code));
            run == (if first then [end, UserReload] else [UserReload, end]) + [TakeResult(0.0)]
    ensures Possible(s, run) && EverForgets(s, run) && Holds(Final(s, run), k, code)
    ensures UserSpawn(Touch(k)) !in SinceForgotten(s, run).1
  {
    hide Possible, Final, EverForgets, SinceForgotten, Received, Holds, Gated;
    var end := WorkerEnds(Touch(k), TouchCode(k, code));
    var last := [TakeResult(0.0)] + [];
    if first {
      var s1 := Finished(s, Touch(k), TouchCode(k, code));
      TakeCode(Reloaded(s1), k, code);
      StepThen(s1, UserReload, last);
      run := [UserReload] + last;
      StepThen(s, end, run);
      run := [end] + run;
    } else {
      var s1 := Reloaded(s);
      TakeCode(Finished(s1, Touch(k), TouchCode(k, code)), k, code);
      StepThen(s1, end, last);
      run := [end] + last;
      NeverForgot(s1, run);
      StepThen(s, UserReload, run);
      run := [UserReload] + run;
    }
  }

  lemma NeverForgot(s: GuiState, run: seq<Action>)
    requires Possible(s, run) && !EverForgets(s, run)
    ensures SinceForgotten(s, run) == (s, run)
  {
  }

  // ------------------------------------------------- flags, codes and clock

  /** What the last step of a run that says something said. */
  ghost function LastSaid<T(!new)>(said: (GuiState, Action) -> Option<T>, s: GuiState, run: seq<Action>): Option<T>
    requires Possible(s, run)
    decreases |run|
  {
    if run == [] then None
    else
      var later := LastSaid(said, Step(s, run[0]), run[1..]);
      if later.Some? then later else said(s, run[0])
  }

  /** The result that a step takes. */
  function TakenBy(s: GuiState, a: Action): Option<JobResult> {
    if a.TakeResult? && s.channel != [] then Some(s.channel[0].result) else None
  }

  /** Busy from the start of a job until a result is taken; a finished command starts the next at once. */
  function SaysBusy(s: GuiState, a: Action): Option<bool> {
    match TakenBy(s, a)
    case Some(r) => Some(r.Success?)
    case None => if a.UserReload? || a.UserSpawn? then Some(true) else None
  }

  /** Loaded by any read that found the key and by any failure, unloaded by a reload. */
  function SaysLoaded(s: GuiState, a: Action): Option<bool> {
    match TakenBy(s, a)
    case Some(r) =>
      if r.Loaded? || r.Refreshed? || r.Failure? then Some(true) else if r.Success? then Some(false) else None
    case None => if a.UserReload? then Some(false) else None
  }

  /** Refreshing once the gate opens, until a read or a failure is taken. */
  function SaysRefreshing(s: GuiState, a: Action): Option<bool> {
    match TakenBy(s, a)
    case Some(r) => if r.Loaded? || r.Refreshed? || r.Disconnected? || r.Failure? then Some(false) else None
    case None =>
      if a.TryGate? && s.loaded && !s.refreshing && !s.busy && a.now >= s.nextRefreshAt then Some(true) else None
  }

  /** The next refresh is set by every read and every failure, from the rows that are then held. */
  function SaysNext(s: GuiState, a: Action): Option<real> {
    match TakenBy(s, a)
    case Some(Loaded(rows, _)) => Some(NextRefresh(rows, a.now))
    case Some(Refreshed(rows, _)) => Some(NextRefresh(rows, a.now))
    case Some(Disconnected) => Some(NextRefresh([], a.now))
    case Some(Failure) => Some(NextRefresh(s.rows, a.now))
    case _ => None
  }

  /** A code is held once it is taken, and no longer after a reload, a finished command or an unplugging that clears something. */
  function SaysCode(k: Key): (GuiState, Action) -> Option<Option<string>> {
    (s: GuiState, a: Action) =>
      match TakenBy(s, a)
      case Some(TouchCode(k', code)) => if k' == k then Some(Some(code)) else None
      case Some(Success) => Some(None)
      case Some(Disconnected) => if s.rows == [] && s.serial == None then None else Some(None)
      case Some(_) => None
      case None => if a.UserReload? then Some(None) else None
  }

  function CodeHeld(s: GuiState, k: Key): Option<string> {
    if k in s.touchCodes then Some(s.touchCodes[k]) else None
  }

  function OrElse<T>(o: Option<T>, x: T): T {
    match o case None => x case Some(y) => y
  }

  /** `t` has what the step said, and else what was there before. */
  ghost predicate AsSaid(s: GuiState, a: Action, t: GuiState, k: Key) {
    && t.busy == OrElse(SaysBusy(s, a), s.busy) && t.loaded == OrElse(SaysLoaded(s, a), s.loaded)
    && t.refreshing == OrElse(SaysRefreshing(s, a), s.refreshing)
    && t.nextRefreshAt == OrElse(SaysNext(s, a), s.nextRefreshAt)
    && CodeHeld(t, k) == OrElse(SaysCode(k)(s, a), CodeHeld(s, k))
  }

  lemma StepSays(s: GuiState, a: Action, k: Key)
    requires Enabled(s, a)
    ensures AsSaid(s, a, Step(s, a), k)
  {
    hide AsSaid, Received, Gated, Finished, Reloaded, Spawned, Enabled;
    match a {
      case WorkerEnds(job, r) =>
        assert job in s.running by { EndsRunning(s, job, r); }
        EndSays(s, job, r, k);
      case TakeResult(now) =>
        assert s.channel != [] by { TakesWaiting(s, now); }
        TakingSays(s, now, k);
      case TryGate(now) => GateSays(s, now, k);
      case UserReload => ReloadSays(s, k);
      case UserSpawn(job) => SpawnSays(s, job, k);
    }
  }

  /** A refresh is started exactly when one is not marked and the rows are loaded. */
  lemma RefreshStartsIff(s: GuiState)
    ensures if s.loaded && !s.refreshing
            then RefreshStarted(s) == s.(refreshing := true, running := s.running + multiset{Refresh})
            else RefreshStarted(s) == s
  {
  }

  lemma EndsRunning(s: GuiState, job: Job, r: JobResult)
    requires Enabled(s, WorkerEnds(job, r))
    ensures job in s.running
  {
  }

  lemma TakesWaiting(s: GuiState, now: real)
    requires Enabled(s, TakeResult(now))
    ensures s.channel != []
  {
  }

  lemma EndSays(s: GuiState, job: Job, r: JobResult, k: Key)
    requires job in s.running
    ensures AsSaid(s, WorkerEnds(job, r), Finished(s, job, r), k)
  {
  }

  lemma ReloadSays(s: GuiState, k: Key)
    ensures AsSaid(s, UserReload, Reloaded(s), k)
  {
  }

  lemma SpawnSays(s: GuiState, job: Job, k: Key)
    ensures AsSaid(s, UserSpawn(job), Spawned(s, job), k)
  {
  }

  lemma GateSays(s: GuiState, now: real, k: Key)
    ensures AsSaid(s, TryGate(now), Gated(s, now), k)
  {
  }

  lemma TakingSays(s: GuiState, now: real, k: Key)
    requires s.channel != []
    ensures AsSaid(s, TakeResult(now), Received(s, now), k)
  {
    hide SaysBusy, SaysLoaded, SaysRefreshing, SaysNext, SaysCode, CodeHeld, Received;
    TakingSetsFlags(s, now);
    TakingSchedules(s, now);
    TakingSetsCode(s, now, k);
  }

  lemma TakingSetsFlags(s: GuiState, now: real)
    requires s.channel != []
    ensures var (t, a) := (Received(s, now), TakeResult(now));
            && t.busy == OrElse(SaysBusy(s, a), s.busy) && t.loaded == OrElse(SaysLoaded(s, a), s.loaded)
            && t.refreshing == OrElse(SaysRefreshing(s, a), s.refreshing)
  {
    hide NextRefresh;
  }

  lemma TakingSchedules(s: GuiState, now: real)
    requires s.channel != []
    ensures Received(s, now).nextRefreshAt == OrElse(SaysNext(s, TakeResult(now)), s.nextRefreshAt)
  {
    hide NextRefresh;
    if s.channel[0].result.Disconnected? {
      UnpluggedSchedules(s.(channel := s.channel[1..]), now);
    }
  }

  lemma TakingSetsCode(s: GuiState, now: real, k: Key)
    requires s.channel != []
    ensures CodeHeld(Received(s, now), k) == OrElse(SaysCode(k)(s, TakeResult(now)), CodeHeld(s, k))
  {
    hide NextRefresh;
  }

  lemma UnpluggedSchedules(s: GuiState, now: real)
    ensures Unplugged(s, now).nextRefreshAt == NextRefresh([], now)
  {
    hide NextRefresh;
  }

  /**
   In every run each flag, each touch code and the time of the next refresh are what the last
   step that says something about them said.
   */
  lemma {:induction false} FollowsSteps(s: GuiState, run: seq<Action>, k: Key)
    requires Possible(s, run)
    ensures var t := Final(s, run);
            && t.busy == OrElse(LastSaid(SaysBusy, s, run), s.busy)
            && t.loaded == OrElse(LastSaid(SaysLoaded, s, run), s.loaded)
            && t.refreshing == OrElse(LastSaid(SaysRefreshing, s, run), s.refreshing)
            && t.nextRefreshAt == OrElse(LastSaid(SaysNext, s, run), s.nextRefreshAt)
            && CodeHeld(t, k) == OrElse(LastSaid(SaysCode(k), s, run), CodeHeld(s, k))
    decreases |run|
  {
    hide Step, Enabled, CodeHeld, SaysBusy, SaysLoaded, SaysRefreshing, SaysNext, SaysCode;
    if run != [] {
      StepSays(s, run[0], k);
      FollowsSteps(Step(s, run[0]), run[1..], k);
    }
  }

  /** The next refresh, exactly: 0.4 seconds into the second of the next multiple of the shortest period, or in five seconds if that is nearer. */
  lemma NextRefreshIs(rows: seq<Row>, now: real, boundary: int)
    requires now >= 0.0
    requires boundary % Shortest(rows) == 0 && now.Floor < boundary <= now.Floor + Shortest(rows)
    ensures var at := boundary as real + (now - now.Floor as real) + 0.4;
            NextRefresh(rows, now) == if at < now + 5.0 then at else now + 5.0
    ensures Shortest(rows) == if forall i :: 0 <= i < |rows| ==> rows[i].period == 0 then 30 else MinPeriod(rows).value
  {
    ShortestIs(rows);
    Interval(rows, now);
    hide NextRefresh, Shortest, MinPeriod;
    var (p, secs) := (Shortest(rows), now.Floor);
    NextMultiple(secs, p, boundary);
  }

  lemma Interval(rows: seq<Row>, now: real)
    ensures var until := (Shortest(rows) - now.Floor % Shortest(rows)) as real + 0.4;
            NextRefresh(rows, now) == if until < 5.0 then now + until else now + 5.0
  {
    hide Shortest;
  }

  lemma ShortestIs(rows: seq<Row>)
    ensures Shortest(rows) == if forall i :: 0 <= i < |rows| ==> rows[i].period == 0 then 30 else MinPeriod(rows).value
  {
  }

  lemma NextMultiple(n: int, p: nat, b: int)
    requires p > 0 && b % p == 0 && n < b <= n + p
    ensures p - n % p == b - n
  {
    var (q, r) := (n / p, n % p);
    assert n == p * q + r && b == p * (b / p);
    var d := b / p - q;
    assert b - n == p * d - r;
    Multiples(p, d);
  }

  lemma Multiples(p: nat, d: int)
    requires p > 0
    ensures d <= 0 ==> p * d <= 0
    ensures d >= 2 ==> p * d >= 2 * p
    ensures d == 1 ==> p * d == p
  {
    if d >= 2 {
      assert p * d == 2 * p + p * (d - 2);
    }
  }

  /** A drain takes every waiting result, one after the other. */
  lemma {:induction false} DrainIsRun(s: GuiState, clock: nat -> real, i: nat)
    ensures Possible(s, Takes(clock, i, |s.channel|)) && Drained(s, clock, i) == Final(s, Takes(clock, i, |s.channel|))
    decreases |s.channel|
  {
    hide Handled;
    if s.channel != [] {
      var t := Received(s, clock(i));
      ChannelAfter(s.(channel := s.channel[1..]), s.channel[0].result, clock(i));
      DrainIsRun(t, clock, i + 1);
      assert Takes(clock, i, |s.channel|)[1..] == Takes(clock, i + 1, |t.channel|);
    }
  }

  function Takes(clock: nat -> real, i: nat, n: nat): (run: seq<Action>)
    ensures |run| == n
  {
    seq(n, j requires 0 <= j < n => TakeResult(clock(i + j)))
  }

  // --------------------------------------------------------------- settling

  ghost predicate OnlyLoads(s: GuiState) {
    (forall job :: job in s.running ==> job == Load) &&
    forall i :: 0 <= i < |s.channel| ==> s.channel[i].job == Load && Produces(Load, s.channel[i].result)
  }

  lemma TakingRunning(s: GuiState, now: real)
    requires s.channel != []
    ensures Received(s, now).channel == s.channel[1..]
    ensures Received(s, now).running == if s.channel[0].result.Success? then s.running + multiset{Load} else s.running
  {
    hide NextRefresh;
  }

  /** Draining starts nothing but loads. */
  lemma {:induction false} DrainStartsLoads(s: GuiState, clock: nat -> real, i: nat := 0)
    ensures Drained(s, clock, i).channel == []
    ensures forall job :: job != Load ==> Drained(s, clock, i).running[job] == s.running[job]
    ensures OnlyLoads(s) ==> Drained(s, clock, i).running == s.running
    decreases |s.channel|
  {
    hide Handled;
    if s.channel != [] {
      var t := Received(s, clock(i));
      TakingRunning(s, clock(i));
      ChannelAfter(s.(channel := s.channel[1..]), s.channel[0].result, clock(i));
      if OnlyLoads(s) {
        assert Produces(Load, s.channel[0].result);
        assert OnlyLoads(t);
      }
      DrainStartsLoads(t, clock, i + 1);
    }
  }

  lemma {:induction false} EndingKeepsOnlyLoads(s: GuiState, ends: seq<Action>)
    requires OnlyLoads(s) && Possible(s, ends) && forall i :: 0 <= i < |ends| ==> ends[i].WorkerEnds?
    ensures OnlyLoads(Final(s, ends))
    decreases |ends|
  {
    if ends != [] {
      var t := Step(s, ends[0]);
      assert OnlyLoads(t);
      EndingKeepsOnlyLoads(t, ends[1..]);
    }
  }

  lemma {:induction false} DrainingKeepsInv(s: GuiState, clock: nat -> real, i: nat := 0)
    requires Inv(s)
    ensures Inv(Drained(s, clock, i))
    decreases |s.channel|
  {
    hide Inv, Handled;
    if s.channel != [] {
      TakingKeepsInv(s, clock(i));
      ChannelAfter(s.(channel := s.channel[1..]), s.channel[0].result, clock(i));
      DrainingKeepsInv(Received(s, clock(i)), clock, i + 1);
    }
  }

  /**
   Once the workers have ended, the window settles in two rounds: it drains, the loads
   that the drained successes started end with whatever result, it drains again, and then
   nothing is in flight and every flag is at rest.
   */
  lemma SettlesInTwoRounds(s: GuiState, clock: nat -> real, ends: seq<Action>, later: nat -> real)
    requires Inv(s) && s.running == multiset{}
    requires forall i :: 0 <= i < |ends| ==> ends[i].WorkerEnds?
    requires Possible(Drained(s, clock), ends) && Final(Drained(s, clock), ends).running == multiset{}
    ensures var w := Drained(Final(Drained(s, clock), ends), later);
            NothingInFlight(w) && w.loaded && !w.refreshing && !w.busy
  {
    hide Inv, Drained;
    var u := Drained(s, clock);
    DrainingKeepsInv(s, clock);
    DrainStartsLoads(s, clock);
    assert OnlyLoads(u);
    EndingKeepsOnlyLoads(u, ends);
    var v := Final(u, ends);
    RunKeepsInv(u, ends);
    DrainingKeepsInv(v, later);
    DrainStartsLoads(v, later);
    AtRest(Drained(v, later));
  }

  lemma AtRest(s: GuiState)
    requires Inv(s) && s.running == multiset{} && s.channel == []
    ensures NothingInFlight(s) && s.loaded && !s.refreshing && !s.busy
  {
  }

  // -------------------------------------------------- refreshes in flight

  /** At most one refresh is in flight, and the flag says which. */
  ghost predicate Single(s: GuiState) {
    InFlight(s, Refresh) == if s.refreshing then 1 else 0
  }

  /** The field's comment: it is true while a refresh is in flight. */
  ghost predicate Marked(s: GuiState) {
    InFlight(s, Refresh) > 0 ==> s.refreshing
  }

  /** A load's result or a failure is taken while a refresh is in flight, and clears its flag. */
  ghost predicate EarlyClear(s: GuiState, a: Action) {
    a.TakeResult? && s.channel != [] && (s.channel[0].result.Loaded? || s.channel[0].result.Failure?) &&
    InFlight(s, Refresh) > 0
  }

  /** One step keeps the flag true to the refresh in flight unless it clears it early. */
  lemma SingleIff(s: GuiState, a: Action)
    requires Inv(s) && Single(s) && Enabled(s, a)
    ensures Single(Step(s, a)) <==> !EarlyClear(s, a)
    ensures EarlyClear(s, a) ==> !Marked(Step(s, a))
  {
    hide NextRefresh, InFlight;
    match a {
      case WorkerEnds(job, r) => FinishKeepsFlights(s, job, r, Refresh);
      case TakeResult(now) =>
        FlightsAfterTaking(s, now, Refresh);
        assert Produces(s.channel[0].job, s.channel[0].result);
      case TryGate(now) => GateFlights(s, now);
      case UserReload => SpawnFlights(s, Load);
      case UserSpawn(job) => SpawnFlights(s, job);
    }
  }

  ghost predicate ClearsEarly(s: GuiState, run: seq<Action>)
    requires Possible(s, run)
    decreases |run|
  {
    run != [] && (EarlyClear(s, run[0]) || ClearsEarly(Step(s, run[0]), run[1..]))
  }

  ghost predicate AlwaysSingle(s: GuiState, run: seq<Action>) {
    forall j :: 0 <= j <= |run| ==> Possible(s, run[..j]) && Single(Final(s, run[..j]))
  }

  ghost predicate AlwaysMarked(s: GuiState, run: seq<Action>) {
    forall j :: 0 <= j <= |run| ==> Possible(s, run[..j]) && Marked(Final(s, run[..j]))
  }

  /** The states on the way are the first and those on the way from the second. */
  lemma PrefixStep(s: GuiState, run: seq<Action>, j: nat)
    requires Possible(s, run) && 0 < j <= |run|
    ensures var t := Step(s, run[0]);
            (Possible(s, run[..j]) <==> Possible(t, run[1..][..j - 1])) &&
            (Possible(s, run[..j]) ==> Final(s, run[..j]) == Final(t, run[1..][..j - 1]))
  {
    assert run[..j][1..] == run[1..][..j - 1];
  }

  lemma AlwaysStep(s: GuiState, run: seq<Action>)
    requires Possible(s, run) && run != []
    ensures AlwaysSingle(s, run) <==> Single(s) && AlwaysSingle(Step(s, run[0]), run[1..])
    ensures AlwaysMarked(s, run) <==> Marked(s) && AlwaysMarked(Step(s, run[0]), run[1..])
  {
    hide Step, Single, Marked;
    var t := Step(s, run[0]);
    assert run[..0] == [];
    forall j | 0 < j <= |run|
      ensures Possible(s, run[..j]) <==> Possible(t, run[1..][..j - 1])
      ensures Possible(s, run[..j]) ==> Final(s, run[..j]) == Final(t, run[1..][..j - 1])
    {
      PrefixStep(s, run, j);
    }
    hide Possible, Final;
    assert AlwaysSingle(s, run) ==> AlwaysSingle(t, run[1..]) by {
      if AlwaysSingle(s, run) {
        forall i | 0 <= i <= |run[1..]| ensures Possible(t, run[1..][..i]) && Single(Final(t, run[1..][..i])) {
          assert Possible(s, run[..i + 1]) && Single(Final(s, run[..i + 1]));
        }
      }
    }
    assert AlwaysMarked(s, run) ==> AlwaysMarked(t, run[1..]) by {
      if AlwaysMarked(s, run) {
        forall i | 0 <= i <= |run[1..]| ensures Possible(t, run[1..][..i]) && Marked(Final(t, run[1..][..i])) {
          assert Possible(s, run[..i + 1]) && Marked(Final(s, run[..i + 1]));
        }
      }
    }
  }

  /**
   In every run the flag is true of the refresh in flight throughout, and there is never a
   second one, if and only if no step clears the flag early.
   */
  lemma {:induction false} SingleThroughoutIff(s: GuiState, run: seq<Action>)
    requires Inv(s) && Single(s) && Possible(s, run)
    ensures AlwaysSingle(s, run) <==> !ClearsEarly(s, run)
    ensures AlwaysMarked(s, run) <==> !ClearsEarly(s, run)
    decreases |run|
  {
    hide Inv, Step, EarlyClear, InFlight, AlwaysSingle, AlwaysMarked;
    if run == [] {
      assert AlwaysSingle(s, run) && AlwaysMarked(s, run) by { AlwaysAtStart(s); }
    } else {
      var t := Step(s, run[0]);
      AlwaysStep(s, run);
      SingleIff(s, run[0]);
      StepKeepsInv(s, run[0]);
      if EarlyClear(s, run[0]) {
        AlwaysBegins(t, run[1..]);
      } else {
        SingleThroughoutIff(t, run[1..]);
      }
    }
  }

  lemma AlwaysAtStart(s: GuiState)
    requires Single(s)
    ensures AlwaysSingle(s, []) && AlwaysMarked(s, [])
  {
  }

  lemma AlwaysBegins(s: GuiState, run: seq<Action>)
    ensures AlwaysSingle(s, run) ==> Single(s)
    ensures AlwaysMarked(s, run) ==> Marked(s)
  {
    assert run[..0] == [];
  }

  /** So it is from the start of the program on. */
  lemma RefreshFlagIff(run: seq<Action>)
    requires Possible(INITIAL, run)
    ensures AlwaysSingle(INITIAL, run) <==> !ClearsEarly(INITIAL, run)
    ensures AlwaysMarked(INITIAL, run) <==> !ClearsEarly(INITIAL, run)
  {
    InitialInv();
    assert Single(INITIAL);
    hide Possible, Inv, Single, AlwaysSingle, AlwaysMarked, ClearsEarly;
    SingleThroughoutIff(INITIAL, run);
  }

  lemma GateFlights(s: GuiState, now: real)
    ensures InFlight(Gated(s, now), Refresh) == InFlight(s, Refresh) + if GateOpen(s, now) then 1 else 0
  {
  }

  lemma SpawnFlights(s: GuiState, job: Job)
    requires job != Refresh
    ensures InFlight(Spawned(s, job), Refresh) == InFlight(s, Refresh)
    ensures InFlight(Reloaded(s), Refresh) == InFlight(s, Refresh)
  {
  }

  lemma NoStep(s: GuiState)
    ensures Possible(s, []) && Final(s, []) == s && !EverForgets(s, [])
  {
  }

  lemma {:induction false} FinalConcat(s: GuiState, one: seq<Action>, two: seq<Action>)
    requires Possible(s, one) && Possible(Final(s, one), two)
    ensures Possible(s, one + two) && Final(s, one + two) == Final(Final(s, one), two)
    decreases |one|
  {
    hide Enabled, Step;
    if one == [] {
      assert one + two == two;
    } else {
      FinalConcat(Step(s, one[0]), one[1..], two);
      assert (one + two)[1..] == one[1..] + two;
    }
  }

  /** From any state, a load that ends well lets the gate start a refresh, in flight or not. */
  lemma LoadThenRefresh(s: GuiState, now: real) returns (run: seq<Action>)
    requires Load in s.running && s.channel == [] && now >= 0.0
    ensures Possible(s, run)
    ensures Final(s, run).running == s.running - multiset{Load} + multiset{Refresh} && Final(s, run).channel == []
  {
    var s1 := Step(s, WorkerEnds(Load, Loaded([], None)));
    var s2 := Step(s1, TakeResult(now));
    NextRefreshBounds([], now);
    hide NextRefresh, Possible, Final;
    assert s2.loaded && !s2.refreshing && !s2.busy && s2.nextRefreshAt <= now + 5.0;
    var s3 := Step(s2, TryGate(now + 5.0));
    NoStep(s3);
    StepThen(s2, TryGate(now + 5.0), []);
    StepThen(s1, TakeResult(now), [TryGate(now + 5.0)] + []);
    run := [TakeResult(now)] + ([TryGate(now + 5.0)] + []);
    StepThen(s, WorkerEnds(Load, Loaded([], None)), run);
    run := [WorkerEnds(Load, Loaded([], None))] + run;
  }

  /** It does happen: a reload that finishes first leaves a refresh running and its flag false. */
  lemma UnmarkedRefresh()
    ensures exists run :: Possible(INITIAL, run) && !Marked(Final(INITIAL, run)) && Refresh in Final(INITIAL, run).running
  {
    hide Possible, Final, NextRefresh;
    var one := LoadThenRefresh(INITIAL, 0.0);
    var s := Final(INITIAL, one);
    var s1 := Reloaded(s);
    var s2 := Finished(s1, Load, Loaded([], None));
    var s3 := Received(s2, 9.0);
    NoStep(s3);
    StepThen(s2, TakeResult(9.0), []);
    StepThen(s1, WorkerEnds(Load, Loaded([], None)), [TakeResult(9.0)] + []);
    var two := [WorkerEnds(Load, Loaded([], None))] + ([TakeResult(9.0)] + []);
    StepThen(s, UserReload, two);
    FinalConcat(INITIAL, one, [UserReload] + two);
    assert !s3.refreshing && Refresh in s3.running;
  }

  /** ... after which the gate starts a second refresh beside it. */
  lemma TwoRefreshes()
    ensures exists run :: Possible(INITIAL, run) && InFlight(Final(INITIAL, run), Refresh) == 2
  {
    hide Possible, Final;
    var one := LoadThenRefresh(INITIAL, 0.0);
    var s := Final(INITIAL, one);
    var two := LoadThenRefresh(Reloaded(s), 9.0);
    StepThen(s, UserReload, two);
    FinalConcat(INITIAL, one, [UserReload] + two);
    assert InFlight(Final(Reloaded(s), two), Refresh) == 2;
  }
}
