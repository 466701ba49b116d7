/**
 How old the rows on show can be: runs of the window in which every worker and every waiting
 result is marked as started before or after the last reload.
 */
module Ages {
  import opened Bytes
  import opened Gui

  /** Where the rows and serial on show come from, seen from the last reload. */
  datatype Origin = Before | OldWorker | NewWorker

  /** `early` are the running workers started before the last reload; `marks` say which waiting results are theirs. */
  datatype Aged = Aged(s: GuiState, early: multiset<Job>, marks: seq<bool>, origin: Origin)

  /** An action, and for the end of a worker whether it is an old one. */
  datatype Move = Move(action: Action, early: bool)

  ghost predicate Fits(x: Aged) {
    x.early <= x.s.running && |x.marks| == |x.s.channel|
  }

  /** A result that says what is on the key. */
  predicate IsRead(r: JobResult) {
    r.Loaded? || r.Refreshed? || r.Disconnected?
  }

  /** A reload, by the user or after a finished command. */
  predicate Reloads(s: GuiState, a: Action) {
    a.UserReload? || (a.TakeResult? && s.channel != [] && s.channel[0].result.Success?)
  }

  ghost predicate CanMove(x: Aged, m: Move) {
    Fits(x) && Enabled(x.s, m.action) &&
    (m.action.WorkerEnds? ==>
       var job := m.action.job;
       if m.early then job in x.early else x.early[job] < x.s.running[job])
  }

  function AllOld(n: nat): (marks: seq<bool>)
    ensures |marks| == n && forall i :: 0 <= i < n ==> marks[i]
  {
    seq(n, _ => true)
  }

  ghost function Moved(x: Aged, m: Move): Aged
    requires CanMove(x, m)
  {
    var s := Step(x.s, m.action);
    if Reloads(x.s, m.action) then Aged(s, x.s.running, AllOld(|s.channel|), Before)
    else
      match m.action
      case WorkerEnds(job, _) => Aged(s, if m.early then x.early - multiset{job} else x.early, x.marks + [m.early], x.origin)
      case TakeResult(_) =>
        Aged(s, x.early, x.marks[1..],
             if !IsRead(x.s.channel[0].result) then x.origin else if x.marks[0] then OldWorker else NewWorker)
      case _ => x.(s := s)
  }

  /** Only its own end takes a worker out of those that run. */
  lemma StepKeepsRunning(s: GuiState, a: Action)
    requires Enabled(s, a)
    ensures var t := Step(s, a);
            if a.WorkerEnds? then t.running == s.running - multiset{a.job} && |t.channel| == |s.channel| + 1
            else s.running <= t.running && |t.channel| == if a.TakeResult? then |s.channel| - 1 else |s.channel|
  {
    hide Received, GateOpen, CanRead, Produces;
    if a.TakeResult? {
      TakingRunning(s, a.now);
    }
  }

  lemma MovedFits(x: Aged, m: Move)
    requires CanMove(x, m)
    ensures Fits(Moved(x, m))
  {
    hide Step;
    assert Enabled(x.s, m.action);
    StepKeepsRunning(x.s, m.action);
    hide Enabled;
  }

  ghost predicate CanRun(x: Aged, ms: seq<Move>)
    decreases |ms|
  {
    Fits(x) && (ms == [] || (CanMove(x, ms[0]) && CanRun(Moved(x, ms[0]), ms[1..])))
  }

  ghost function After(x: Aged, ms: seq<Move>): Aged
    requires CanRun(x, ms)
    decreases |ms|
  {
    if ms == [] then x else After(Moved(x, ms[0]), ms[1..])
  }

  ghost predicate EverReloads(x: Aged, ms: seq<Move>)
    requires CanRun(x, ms)
    decreases |ms|
  {
    ms != [] && (Reloads(x.s, ms[0].action) || EverReloads(Moved(x, ms[0]), ms[1..]))
  }

  function Actions(ms: seq<Move>): (run: seq<Action>)
    ensures |run| == |ms|
  {
    seq(|ms|, i requires 0 <= i < |ms| => ms[i].action)
  }

  // ------------------------------------------- marks add nothing to the runs

  /** Marked runs are runs. */
  lemma {:induction false} MarksForgotten(x: Aged, ms: seq<Move>)
    requires CanRun(x, ms)
    ensures Possible(x.s, Actions(ms)) && Final(x.s, Actions(ms)) == After(x, ms).s
    decreases |ms|
  {
    hide Step, Enabled;
    if ms != [] {
      MarksForgotten(Moved(x, ms[0]), ms[1..]);
      assert Actions(ms)[1..] == Actions(ms[1..]);
    }
  }

  /** Every run can be marked. */
  lemma {:induction false} RunsAreMarked(x: Aged, run: seq<Action>) returns (ms: seq<Move>)
    requires Fits(x) && Possible(x.s, run)
    ensures CanRun(x, ms) && Actions(ms) == run
    decreases |run|
  {
    hide Step;
    ms := [];
    if run != [] {
      var m := Move(run[0], run[0].WorkerEnds? && run[0].job in x.early);
      assert CanMove(x, m);
      MovedFits(x, m);
      ms := RunsAreMarked(Moved(x, m), run[1..]);
      assert ([m] + ms)[1..] == ms && [run[0]] + run[1..] == run;
      ms := [m] + ms;
      assert Actions(ms) == [run[0]] + Actions(ms[1..]);
    }
  }

  // ------------------------------------------------------ reads that are old

  /** An old read waits in the channel and no finished command is ahead of it. */
  predicate OldReadAhead(channel: seq<Message>, marks: seq<bool>)
    requires |marks| == |channel|
  {
    channel != [] && !channel[0].result.Success? &&
    ((IsRead(channel[0].result) && marks[0]) || OldReadAhead(channel[1..], marks[1..]))
  }

  predicate NoReloadAhead(channel: seq<Message>) {
    forall i :: 0 <= i < |channel| ==> !channel[i].result.Success?
  }

  /** A worker started before the last reload may still bring rows: its result waits, or it runs and its way is free. */
  ghost predicate OldReadMayArrive(x: Aged)
    requires Fits(x)
  {
    OldReadAhead(x.s.channel, x.marks) || (NoReloadAhead(x.s.channel) && (Load in x.early || Refresh in x.early))
  }

  lemma {:induction false} AheadAppend(channel: seq<Message>, marks: seq<bool>, m: Message, mark: bool)
    requires |marks| == |channel|
    ensures OldReadAhead(channel + [m], marks + [mark]) <==>
              OldReadAhead(channel, marks) || (NoReloadAhead(channel) && IsRead(m.result) && mark)
  {
    hide IsRead;
    if channel == [] {
      assert channel + [m] == [m] && marks + [mark] == [mark] && [m][1..] == [] && [mark][1..] == [];
      assert !m.result.Success? || !IsRead(m.result) by { ReadIsNoSuccess(m.result); }
      assert !OldReadAhead([], []);
    } else {
      assert (channel + [m])[1..] == channel[1..] + [m] && (marks + [mark])[1..] == marks[1..] + [mark];
      AheadAppend(channel[1..], marks[1..], m, mark);
      NoReloadTail(channel);
    }
  }

  lemma ReadIsNoSuccess(r: JobResult)
    ensures !(r.Success? && IsRead(r))
  {
  }

  lemma NoReloadTail(channel: seq<Message>)
    requires channel != []
    ensures NoReloadAhead(channel) <==> !channel[0].result.Success? && NoReloadAhead(channel[1..])
  {
    var rest := channel[1..];
    assert forall i :: 1 <= i < |channel| ==> channel[i] == rest[i - 1];
    if NoReloadAhead(rest) && !channel[0].result.Success? {
      forall i | 0 <= i < |channel|
        ensures !channel[i].result.Success?
      {
      }
    }
  }

  /** A step that does not reload opens no way for an old read. */
  lemma MoveArrives(x: Aged, m: Move)
    requires CanMove(x, m) && Inv(x.s) && !Reloads(x.s, m.action) && !OldReadMayArrive(x)
    ensures Fits(Moved(x, m)) && !OldReadMayArrive(Moved(x, m))
    ensures x.origin != OldWorker ==> Moved(x, m).origin != OldWorker
  {
    hide NextRefresh, OldReadAhead, NoReloadAhead;
    MovedFits(x, m);
    match m.action {
      case WorkerEnds(job, r) =>
        AheadAppend(x.s.channel, x.marks, Message(job, r), m.early);
        AppendedReload(x.s.channel, Message(job, r));
      case TakeResult(now) =>
        TakingRunning(x.s, now);
        AheadTail(x.s.channel, x.marks);
        NoReloadTail(x.s.channel);
      case _ =>
    }
  }

  lemma AppendedReload(channel: seq<Message>, m: Message)
    ensures NoReloadAhead(channel + [m]) ==> NoReloadAhead(channel)
  {
    assert forall i :: 0 <= i < |channel| ==> (channel + [m])[i] == channel[i];
  }

  lemma AheadTail(channel: seq<Message>, marks: seq<bool>)
    requires |marks| == |channel|
    ensures OldReadAhead(channel, marks) <==>
              channel != [] && !channel[0].result.Success? && ((IsRead(channel[0].result) && marks[0]) || OldReadAhead(channel[1..], marks[1..]))
  {
  }

  lemma {:induction false} NoneArrives(x: Aged, ms: seq<Move>)
    requires CanRun(x, ms) && Inv(x.s) && !EverReloads(x, ms) && !OldReadMayArrive(x) && x.origin != OldWorker
    ensures After(x, ms).origin != OldWorker
    decreases |ms|
  {
    hide CanMove, Moved, Reloads, OldReadMayArrive, Inv;
    if ms != [] {
      MoveArrives(x, ms[0]);
      MoveKeepsInv(x, ms[0]);
      NoneArrives(Moved(x, ms[0]), ms[1..]);
    }
  }

  lemma MoveKeepsInv(x: Aged, m: Move)
    requires CanMove(x, m) && Inv(x.s)
    ensures Inv(Moved(x, m).s)
  {
    hide Inv, Step, Enabled, Reloads;
    StepKeepsInv(x.s, m.action);
  }

  lemma MoveThen(x: Aged, m: Move, ms: seq<Move>)
    requires CanMove(x, m) && CanRun(Moved(x, m), ms)
    ensures CanRun(x, [m] + ms) && After(x, [m] + ms) == After(Moved(x, m), ms)
    ensures EverReloads(x, [m] + ms) <==> Reloads(x.s, m.action) || EverReloads(Moved(x, m), ms)
  {
    hide CanMove, Moved, Reloads, Fits;
    assert ([m] + ms)[1..] == ms;
    assert Fits(x) by { FitsFirst(x, m); }
  }

  lemma FitsFirst(x: Aged, m: Move)
    requires CanMove(x, m)
    ensures Fits(x)
  {
  }

  lemma NoMove(x: Aged)
    requires Fits(x)
    ensures CanRun(x, []) && After(x, []) == x && !EverReloads(x, [])
  {
  }

  /** Taking results one after the other shows an old read that waits. */
  lemma {:induction false} AheadIsShown(x: Aged) returns (ms: seq<Move>)
    requires Fits(x) && OldReadAhead(x.s.channel, x.marks)
    ensures CanRun(x, ms) && !EverReloads(x, ms) && After(x, ms).origin == OldWorker
    decreases |x.s.channel|
  {
    hide NextRefresh, CanRun, After, EverReloads, IsRead, OldReadAhead;
    AheadTail(x.s.channel, x.marks);
    var m := Move(TakeResult(0.0), false);
    MovedFits(x, m);
    TakingRunning(x.s, 0.0);
    var y := Moved(x, m);
    if IsRead(x.s.channel[0].result) && x.marks[0] {
      ms := [];
      NoMove(y);
    } else {
      ms := AheadIsShown(y);
    }
    MoveThen(x, m, ms);
    ms := [m] + ms;
  }

  /**
   In every run until the next reload, no result of a worker started before the last one is the
   last read taken, exactly when no such worker may still bring one.
   */
  lemma NoOldReadIff(x: Aged)
    requires Fits(x) && Inv(x.s) && x.origin != OldWorker
    ensures (forall ms :: CanRun(x, ms) && !EverReloads(x, ms) ==> After(x, ms).origin != OldWorker) <==>
            !OldReadMayArrive(x)
  {
    hide CanRun, After, EverReloads, Inv, OldReadMayArrive;
    if OldReadMayArrive(x) {
      var ms := ArrivalIsShown(x);
      assert CanRun(x, ms) && !EverReloads(x, ms) && After(x, ms).origin == OldWorker;
    } else {
      forall ms | CanRun(x, ms) && !EverReloads(x, ms)
        ensures After(x, ms).origin != OldWorker
      {
        NoneArrives(x, ms);
      }
    }
  }

  lemma ArrivalIsShown(x: Aged) returns (ms: seq<Move>)
    requires Fits(x) && OldReadMayArrive(x)
    ensures CanRun(x, ms) && !EverReloads(x, ms) && After(x, ms).origin == OldWorker
  {
    hide CanRun, After, EverReloads, OldReadAhead, NoReloadAhead;
    if OldReadAhead(x.s.channel, x.marks) {
      ms := AheadIsShown(x);
    } else {
      var job := if Load in x.early then Load else Refresh;
      var r := if Load in x.early then Loaded([], None) else Refreshed([], None);
      var m := Move(WorkerEnds(job, r), true);
      MovedFits(x, m);
      AheadAppend(x.s.channel, x.marks, Message(job, r), true);
      ms := AheadIsShown(Moved(x, m));
      MoveThen(x, m, ms);
      ms := [m] + ms;
    }
  }

  // -------------------------------------------------------------- whole runs

  /** The start of the program. */
  const START: Aged := Aged(INITIAL, multiset{}, [], Before)

  /** The state after the last reload of the run, and the run from there. */
  ghost function SinceReload(x: Aged, ms: seq<Move>): (Aged, seq<Move>)
    requires CanRun(x, ms)
    decreases |ms|
  {
    if !EverReloads(x, ms) then (x, ms) else SinceReload(Moved(x, ms[0]), ms[1..])
  }

  lemma {:induction false} SinceReloadIsSuffix(x: Aged, ms: seq<Move>)
    requires CanRun(x, ms) && Inv(x.s) && (x.origin == Before || EverReloads(x, ms))
    ensures var (y, rest) := SinceReload(x, ms);
            CanRun(y, rest) && !EverReloads(y, rest) && After(y, rest) == After(x, ms) && Inv(y.s) && y.origin == Before
    decreases |ms|
  {
    hide Inv, CanMove, Step, Reloads;
    if EverReloads(x, ms) {
      MoveKeepsInv(x, ms[0]);
      SinceReloadIsSuffix(Moved(x, ms[0]), ms[1..]);
    }
  }

  /** Reads in flight that started before the last reload, at the moment of that reload. */
  function OldReads(x: Aged): nat {
    x.early[Load] + x.early[Refresh] + Waiting(x.s.channel, Load) + Waiting(x.s.channel, Refresh)
  }

  lemma {:induction false} ReadsAreFlights(channel: seq<Message>, marks: seq<bool>)
    requires |marks| == |channel| && OldReadAhead(channel, marks)
    requires forall i :: 0 <= i < |channel| ==> Produces(channel[i].job, channel[i].result)
    ensures Waiting(channel, Load) + Waiting(channel, Refresh) > 0
  {
    var rest := channel[1..];
    assert forall i :: 0 <= i < |rest| ==> rest[i] == channel[i + 1];
    assert Produces(channel[0].job, channel[0].result);
    if !(IsRead(channel[0].result) && marks[0]) {
      ReadsAreFlights(rest, marks[1..]);
    }
  }

  lemma ArrivalIsFlight(x: Aged)
    requires Fits(x) && Inv(x.s) && OldReadMayArrive(x)
    ensures OldReads(x) > 0
  {
    if OldReadAhead(x.s.channel, x.marks) {
      ReadsAreFlights(x.s.channel, x.marks);
    }
  }

  /**
   Over every run of the program: the last read taken is by a worker that started before the last
   reload or finished command only if such a read could still arrive at that reload, so never
   if none was in flight then.
   */
  lemma OldReadSince(ms: seq<Move>)
    requires CanRun(START, ms) && After(START, ms).origin == OldWorker
    ensures var (y, rest) := SinceReload(START, ms);
            CanRun(y, rest) && !EverReloads(y, rest) && Fits(y) && OldReadMayArrive(y) && OldReads(y) > 0
  {
    hide CanRun, After, EverReloads, Inv, OldReadMayArrive, OldReads;
    InitialInv();
    SinceReloadIsSuffix(START, ms);
    var (y, rest) := SinceReload(START, ms);
    assert Fits(y) by { RunFits(y, rest); }
    if !OldReadMayArrive(y) {
      NoneArrives(y, rest);
    }
    ArrivalIsFlight(y);
  }

  lemma RunFits(x: Aged, ms: seq<Move>)
    requires CanRun(x, ms)
    ensures Fits(x)
  {
  }

  // ---------------------------------------------------- old rows on show

  /**
   What the window lists comes from a worker started since the last reload. With `empty` an
   empty list counts as listed too, else only rows do.
   */
  predicate Fresh(x: Aged, empty: bool) {
    x.s.loaded && (empty || x.s.rows != []) ==> x.origin == NewWorker
  }

  /** A result is taken that puts an old list on show: a failure uncovers it, or an old read brings it. */
  predicate ShowsOld(x: Aged, m: Move, empty: bool)
    requires |x.marks| == |x.s.channel|
  {
    m.action.TakeResult? && x.s.channel != [] &&
    match x.s.channel[0].result
    case Failure => x.origin != NewWorker && (empty || x.s.rows != [])
    case Loaded(rows, _) => x.marks[0] && (empty || rows != [])
    case Refreshed(rows, _) => x.marks[0] && (empty || rows != [])
    case Disconnected => x.marks[0] && empty && x.s.loaded
    case _ => false
  }

  lemma StaysFreshIff(x: Aged, m: Move, empty: bool)
    requires CanMove(x, m) && Fresh(x, empty)
    ensures Fresh(Moved(x, m), empty) <==> !ShowsOld(x, m, empty)
  {
    hide NextRefresh, Produces, CanRead, GateOpen;
  }

  ghost predicate EverShowsOld(x: Aged, ms: seq<Move>, empty: bool)
    requires CanRun(x, ms)
    decreases |ms|
  {
    ms != [] && (ShowsOld(x, ms[0], empty) || EverShowsOld(Moved(x, ms[0]), ms[1..], empty))
  }

  ghost predicate AlwaysFresh(x: Aged, ms: seq<Move>, empty: bool) {
    forall j :: 0 <= j <= |ms| ==> CanRun(x, ms[..j]) && Fresh(After(x, ms[..j]), empty)
  }

  lemma AlwaysFreshStep(x: Aged, ms: seq<Move>, empty: bool)
    requires CanRun(x, ms) && ms != []
    ensures AlwaysFresh(x, ms, empty) <==> Fresh(x, empty) && AlwaysFresh(Moved(x, ms[0]), ms[1..], empty)
  {
    hide Fresh, CanMove, Moved;
    var y := Moved(x, ms[0]);
    assert ms[..0] == [] && Fits(x) by { RunFits(x, ms); }
    NoMove(x);
    forall j | 0 < j <= |ms|
      ensures CanRun(x, ms[..j]) <==> CanRun(y, ms[1..][..j - 1])
      ensures CanRun(x, ms[..j]) ==> After(x, ms[..j]) == After(y, ms[1..][..j - 1])
    {
      assert ms[..j][1..] == ms[1..][..j - 1];
    }
    hide CanRun, After, Fits;
    if AlwaysFresh(x, ms, empty) {
      assert Fresh(After(x, ms[..0]), empty);
      forall i | 0 <= i <= |ms[1..]|
        ensures CanRun(y, ms[1..][..i]) && Fresh(After(y, ms[1..][..i]), empty)
      {
        assert CanRun(x, ms[..i + 1]) && Fresh(After(x, ms[..i + 1]), empty);
      }
    }
  }

  lemma AlwaysBegins(x: Aged, ms: seq<Move>, empty: bool)
    requires Fits(x)
    ensures AlwaysFresh(x, ms, empty) ==> Fresh(x, empty)
    ensures Fresh(x, empty) ==> AlwaysFresh(x, [], empty)
  {
    NoMove(x);
    assert ms[..0] == [];
  }

  /** In every run, reloads included, what is listed is fresh throughout iff no step shows an old list. */
  lemma {:induction false} FreshThroughoutIff(x: Aged, ms: seq<Move>, empty: bool)
    requires CanRun(x, ms) && Fresh(x, empty)
    ensures AlwaysFresh(x, ms, empty) <==> !EverShowsOld(x, ms, empty)
    decreases |ms|
  {
    hide CanMove, Moved, Fresh, ShowsOld, AlwaysFresh, Fits;
    RunFits(x, ms);
    if ms == [] {
      AlwaysBegins(x, ms, empty);
    } else {
      var y := Moved(x, ms[0]);
      RunFits(y, ms[1..]);
      AlwaysFreshStep(x, ms, empty);
      StaysFreshIff(x, ms[0], empty);
      if ShowsOld(x, ms[0], empty) {
        AlwaysBegins(y, ms[1..], empty);
      } else {
        FreshThroughoutIff(y, ms[1..], empty);
      }
    }
  }

  /** So it is over every run of the program. */
  lemma ListFreshIff(ms: seq<Move>, empty: bool)
    requires CanRun(START, ms)
    ensures AlwaysFresh(START, ms, empty) <==> !EverShowsOld(START, ms, empty)
  {
    hide CanRun, AlwaysFresh, EverShowsOld;
    FreshThroughoutIff(START, ms, empty);
  }

  // -- when that can happen before the next reload

  /** The list held would be old if it were shown. */
  predicate HoldsOld(x: Aged, empty: bool) {
    x.origin != NewWorker && (empty || x.s.rows != [])
  }

  /**
   Taking the waiting results in order shows an old list before a finished command reloads, or
   leaves one that any failure shows, or leaves the way free for a read that is old (`bring`).
   */
  predicate OldListAhead(channel: seq<Message>, marks: seq<bool>, loaded: bool, held: bool, empty: bool, bring: bool)
    requires |marks| == |channel|
  {
    if channel == [] then held || bring
    else
      var (rest, more) := (channel[1..], marks[1..]);
      match channel[0].result
      case Failure => held || OldListAhead(rest, more, true, false, empty, bring)
      case Loaded(rows, _) => (marks[0] && (empty || rows != [])) || OldListAhead(rest, more, true, false, empty, bring)
      case Refreshed(rows, _) => (marks[0] && (empty || rows != [])) || OldListAhead(rest, more, true, false, empty, bring)
      case Disconnected =>
        (marks[0] && empty && loaded) || OldListAhead(rest, more, loaded, marks[0] && empty, empty, bring)
      case TouchCode(_, _) => OldListAhead(rest, more, loaded, held, empty, bring)
      case Success => false
  }

  /** Before the next reload the window may show a list from before the last. */
  ghost predicate MayShowOld(x: Aged, empty: bool)
    requires Fits(x)
  {
    OldListAhead(x.s.channel, x.marks, x.s.loaded, HoldsOld(x, empty), empty, Load in x.early || Refresh in x.early)
  }

  lemma {:induction false} AheadGrows(channel: seq<Message>, marks: seq<bool>, m: Message, mark: bool,
                                      loaded: bool, held: bool, empty: bool, bring: bool, bring': bool)
    requires |marks| == |channel| && (bring' ==> bring) && (mark && IsRead(m.result) ==> bring)
    requires OldListAhead(channel + [m], marks + [mark], loaded, held, empty, bring')
    ensures OldListAhead(channel, marks, loaded, held, empty, bring)
    decreases |channel|
  {
    if channel == [] {
      assert channel + [m] == [m] && marks + [mark] == [mark] && [m][1..] == [] && [mark][1..] == [];
    } else {
      var (rest, more) := (channel[1..], marks[1..]);
      assert (channel + [m])[1..] == rest + [m] && (marks + [mark])[1..] == more + [mark];
      if !OldListAhead(channel, marks, loaded, held, empty, bring) {
        match channel[0].result {
          case Failure => AheadGrows(rest, more, m, mark, true, false, empty, bring, bring');
          case Loaded(_, _) => AheadGrows(rest, more, m, mark, true, false, empty, bring, bring');
          case Refreshed(_, _) => AheadGrows(rest, more, m, mark, true, false, empty, bring, bring');
          case Disconnected => AheadGrows(rest, more, m, mark, loaded, marks[0] && empty, empty, bring, bring');
          case TouchCode(_, _) => AheadGrows(rest, more, m, mark, loaded, held, empty, bring, bring');
        }
      }
    }
  }

  /** What taking a result that does not reload leaves. */
  lemma TakenState(x: Aged, now: real)
    requires Fits(x) && x.s.channel != [] && !x.s.channel[0].result.Success?
    ensures var m := Move(TakeResult(now), false);
            CanMove(x, m) && Fits(Moved(x, m)) &&
            var (y, r) := (Moved(x, m), x.s.channel[0].result);
            y.early == x.early && y.s.running == x.s.running && y.s.channel == x.s.channel[1..] && y.marks == x.marks[1..] &&
            y.s.loaded == (x.s.loaded || r.Failure? || r.Loaded? || r.Refreshed?) &&
            y.s.rows == (if r.Loaded? || r.Refreshed? then r.rows else if r.Disconnected? then [] else x.s.rows) &&
            y.origin == if !IsRead(r) then x.origin else if x.marks[0] then OldWorker else NewWorker
  {
    hide NextRefresh;
    MovedFits(x, Move(TakeResult(now), false));
  }

  lemma TakingAhead(x: Aged, now: real, empty: bool)
    requires Fits(x) && Fresh(x, empty) && x.s.channel != []
    ensures var m := Move(TakeResult(now), false);
            CanMove(x, m) && Fits(Moved(x, m)) &&
            (MayShowOld(x, empty) <==>
               !Reloads(x.s, m.action) && (ShowsOld(x, m, empty) || MayShowOld(Moved(x, m), empty)))
  {
    hide Moved, Step;
    var m := Move(TakeResult(now), false);
    if x.s.channel[0].result.Success? {
      MovedFits(x, m);
    } else {
      TakenState(x, now);
    }
  }

  lemma MoveShowsNothing(x: Aged, m: Move, empty: bool)
    requires CanMove(x, m) && Fresh(x, empty) && !Reloads(x.s, m.action) && !MayShowOld(x, empty)
    ensures Fits(Moved(x, m)) && Fresh(Moved(x, m), empty) && !MayShowOld(Moved(x, m), empty)
  {
    hide NextRefresh, OldListAhead, CanRead, GateOpen, Moved;
    MovedFits(x, m);
    StaysFreshIff(x, m, empty);
    match m.action {
      case WorkerEnds(job, r) =>
        EndShowsNothing(x, m, empty);
      case TakeResult(now) =>
        TakingAhead(x, now, empty);
        assert Moved(x, m) == Moved(x, Move(TakeResult(now), false)) by { TakingUnmarked(x, m); }
      case _ =>
        StartShowsNothing(x, m, empty);
    }
  }

  /** The mark of a move says nothing unless a worker ends. */
  lemma TakingUnmarked(x: Aged, m: Move)
    requires CanMove(x, m) && m.action.TakeResult?
    ensures CanMove(x, Move(m.action, false)) && Moved(x, m) == Moved(x, Move(m.action, false))
  {
    hide Step;
  }

  lemma EndState(x: Aged, m: Move)
    requires CanMove(x, m) && m.action.WorkerEnds?
    ensures var y := Moved(x, m);
            Fits(y) && y.s.channel == x.s.channel + [Message(m.action.job, m.action.result)] && y.marks == x.marks + [m.early] &&
            y.s.loaded == x.s.loaded && y.s.rows == x.s.rows && y.origin == x.origin &&
            y.early == if m.early then x.early - multiset{m.action.job} else x.early
  {
    MovedFits(x, m);
  }

  lemma EndShowsNothing(x: Aged, m: Move, empty: bool)
    requires CanMove(x, m) && m.action.WorkerEnds? && !MayShowOld(x, empty)
    ensures Fits(Moved(x, m)) && !MayShowOld(Moved(x, m), empty)
  {
    EndState(x, m);
    assert Fits(x) && (m.early ==> m.action.job in x.early) && Produces(m.action.job, m.action.result);
    hide OldListAhead, Moved, CanMove;
    var (y, message) := (Moved(x, m), Message(m.action.job, m.action.result));
    if MayShowOld(y, empty) {
      AheadGrows(x.s.channel, x.marks, message, m.early, x.s.loaded, HoldsOld(x, empty), empty,
                 Load in x.early || Refresh in x.early, Load in y.early || Refresh in y.early);
    }
  }

  lemma StartShowsNothing(x: Aged, m: Move, empty: bool)
    requires CanMove(x, m) && (m.action.TryGate? || m.action.UserSpawn?) && !MayShowOld(x, empty)
    ensures Fits(Moved(x, m)) && !MayShowOld(Moved(x, m), empty)
  {
    hide OldListAhead, CanRead, GateOpen;
    MovedFits(x, m);
  }

  lemma {:induction false} NothingOldShown(x: Aged, ms: seq<Move>, empty: bool)
    requires CanRun(x, ms) && Fits(x) && Fresh(x, empty) && !EverReloads(x, ms) && !MayShowOld(x, empty)
    ensures Fresh(After(x, ms), empty)
    decreases |ms|
  {
    hide CanMove, Moved, Reloads, MayShowOld, Fresh, Fits;
    if ms != [] {
      MoveShowsNothing(x, ms[0], empty);
      NothingOldShown(Moved(x, ms[0]), ms[1..], empty);
    }
  }

  /** A way to show an old list before the next reload. */
  lemma {:induction false} OldListShown(x: Aged, empty: bool) returns (ms: seq<Move>)
    requires Fits(x) && Fresh(x, empty) && MayShowOld(x, empty)
    ensures CanRun(x, ms) && !EverReloads(x, ms) && !Fresh(After(x, ms), empty)
    decreases |x.s.channel|
  {
    hide NextRefresh, CanRun, After, EverReloads, ShowsOld, OldListAhead, Fresh;
    if x.s.channel == [] {
      ms := OldListBrought(x, empty);
    } else {
      var take := Move(TakeResult(0.0), false);
      TakingAhead(x, 0.0, empty);
      TakingRunning(x.s, 0.0);
      StaysFreshIff(x, take, empty);
      var y := Moved(x, take);
      if ShowsOld(x, take, empty) {
        ms := [];
        NoMove(y);
      } else {
        ms := OldListShown(y, empty);
      }
      MoveThen(x, take, ms);
      ms := [take] + ms;
    }
  }

  /** With nothing waiting: a command fails while an old list is held, or an old worker brings one. */
  lemma OldListBrought(x: Aged, empty: bool) returns (ms: seq<Move>)
    requires Fits(x) && Fresh(x, empty) && MayShowOld(x, empty) && x.s.channel == []
    ensures CanRun(x, ms) && !EverReloads(x, ms) && !Fresh(After(x, ms), empty)
  {
    hide NextRefresh, CanRun, After, EverReloads, Moved;
    if HoldsOld(x, empty) {
      var spawn := Move(UserSpawn(Command), false);
      SpawnHolds(x, empty);
      ms := EndAndTake(Moved(x, spawn), Command, Failure, false, empty);
      MoveThen(x, spawn, ms);
      ms := [spawn] + ms;
    } else {
      var rows := [Row(("", ""), false, 30, None)];
      if Load in x.early {
        ms := EndAndTake(x, Load, Loaded(rows, None), true, empty);
      } else {
        ms := EndAndTake(x, Refresh, Refreshed(rows, None), true, empty);
      }
    }
  }

  lemma SpawnHolds(x: Aged, empty: bool)
    requires Fits(x) && Fresh(x, empty) && HoldsOld(x, empty)
    ensures var m := Move(UserSpawn(Command), false); var y := Moved(x, m);
            CanMove(x, m) && CanMove(y, Move(WorkerEnds(Command, Failure), false)) && y.s.channel == x.s.channel &&
            Fits(y) && Fresh(y, empty) && HoldsOld(y, empty) && !Reloads(x.s, m.action)
  {
  }

  /** A worker ends with nothing waiting before its result, and the result is taken. */
  lemma EndAndTake(x: Aged, job: Job, r: JobResult, early: bool, empty: bool) returns (ms: seq<Move>)
    requires Fresh(x, empty) && x.s.channel == [] && CanMove(x, Move(WorkerEnds(job, r), early))
    requires (r.Failure? && HoldsOld(x, empty)) ||
             (early && ((r.Loaded? && r.rows != []) || (r.Refreshed? && r.rows != [])))
    ensures ms == [Move(WorkerEnds(job, r), early), Move(TakeResult(0.0), false)]
    ensures CanRun(x, ms) && !EverReloads(x, ms) && !Fresh(After(x, ms), empty)
  {
    hide NextRefresh, CanRun, After, EverReloads, Produces;
    var end, take := Move(WorkerEnds(job, r), early), Move(TakeResult(0.0), false);
    MovedFits(x, end);
    var y := Moved(x, end);
    assert y.s.channel == [Message(job, r)] && y.marks == [early] && Fresh(y, empty);
    MovedFits(y, take);
    StaysFreshIff(y, take, empty);
    NoMove(Moved(y, take));
    MoveThen(y, take, []);
    MoveThen(x, end, [take] + []);
    ms := [end] + ([take] + []);
  }

  /**
   From any state, such as one after a reload: what is listed stays fresh in every run until the
   next reload exactly when no old list is held or may come while the way to it is free.
   */
  lemma FreshUntilReloadIff(x: Aged, empty: bool)
    requires Fits(x) && Fresh(x, empty)
    ensures (forall ms :: CanRun(x, ms) && !EverReloads(x, ms) ==> Fresh(After(x, ms), empty)) <==> !MayShowOld(x, empty)
  {
    hide CanRun, After, EverReloads, Fresh, MayShowOld;
    if MayShowOld(x, empty) {
      var ms := OldListShown(x, empty);
      assert CanRun(x, ms) && !EverReloads(x, ms) && !Fresh(After(x, ms), empty);
    } else {
      forall ms | CanRun(x, ms) && !EverReloads(x, ms)
        ensures Fresh(After(x, ms), empty)
      {
        NothingOldShown(x, ms, empty);
      }
    }
  }

  lemma {:induction false} SinceReloadIsFresh(x: Aged, ms: seq<Move>, empty: bool)
    requires CanRun(x, ms) && (!x.s.loaded || EverReloads(x, ms))
    ensures !SinceReload(x, ms).0.s.loaded
    decreases |ms|
  {
    hide CanMove;
    if EverReloads(x, ms) {
      SinceReloadIsFresh(Moved(x, ms[0]), ms[1..], empty);
    }
  }

  lemma {:induction false} AheadIsFlight(channel: seq<Message>, marks: seq<bool>, loaded: bool, empty: bool, bring: bool)
    requires |marks| == |channel| && OldListAhead(channel, marks, loaded, false, empty, bring)
    requires forall i :: 0 <= i < |channel| ==> Produces(channel[i].job, channel[i].result)
    ensures bring || Waiting(channel, Load) + Waiting(channel, Refresh) > 0
    decreases |channel|
  {
    if channel != [] {
      var (rest, more) := (channel[1..], marks[1..]);
      assert forall i :: 0 <= i < |rest| ==> rest[i] == channel[i + 1];
      assert Produces(channel[0].job, channel[0].result);
      if !IsRead(channel[0].result) {
        AheadIsFlight(rest, more, loaded || channel[0].result.Failure?, empty, bring);
      }
    }
  }

  /**
   Over every run of the program: an old list is on show only if it could still be shown at the
   last reload or finished command; and for rows, never if at that moment no row was held and
   no read was in flight.
   */
  lemma RowsReadSince(ms: seq<Move>, empty: bool)
    requires CanRun(START, ms) && !Fresh(After(START, ms), empty)
    ensures var (y, rest) := SinceReload(START, ms);
            CanRun(y, rest) && !EverReloads(y, rest) && Fits(y) && MayShowOld(y, empty) &&
            (empty || y.s.rows != [] || OldReads(y) > 0)
  {
    hide CanRun, After, EverReloads, Inv, MayShowOld, OldReads;
    InitialInv();
    SinceReloadIsSuffix(START, ms);
    SinceReloadIsFresh(START, ms, empty);
    var (y, rest) := SinceReload(START, ms);
    assert Fits(y) by { RunFits(y, rest); }
    if !MayShowOld(y, empty) {
      NothingOldShown(y, rest, empty);
    }
    if !empty && y.s.rows == [] {
      ShownIsFlight(y, empty);
    }
  }

  lemma ShownIsFlight(x: Aged, empty: bool)
    requires Fits(x) && Inv(x.s) && !HoldsOld(x, empty) && MayShowOld(x, empty)
    ensures OldReads(x) > 0
  {
    AheadIsFlight(x.s.channel, x.marks, x.s.loaded, empty, Load in x.early || Refresh in x.early);
  }

  // -- it happens

  /** A touch read fails after a reload: the rows from before it are on show, with the new load still running. */
  lemma FailureShowsOldRows(k: Key)
    ensures exists ms ::
              var row := Row(k, true, 30, None);
              CanRun(START, ms) && !Fresh(After(START, ms), false) && After(START, ms).s.rows == [row] &&
              Load in After(START, ms).s.running &&
              var (y, rest) := SinceReload(START, ms);
              Fits(y) && !OldReadMayArrive(y) && OldReads(y) == 0
  {
    hide CanRun, After, EverReloads, SinceReload, Moved, CanMove;
    var row := Row(k, true, 30, None);
    var x1, x2, x3 := FirstRead(k);
    var reload := Move(UserReload, false);
    AfterReload(x3, Touch(k));
    var y := Moved(x3, reload);
    var tail := EndAndTake(y, Touch(k), Failure, true, false);
    LeftRunning(y, tail, k);
    UntilReload(y, tail);
    SinceThen(x3, reload, tail);
    MoveThen(x3, reload, tail);
    tail := [reload] + tail;
    var read := Move(UserSpawn(Touch(k)), false);
    SinceThen(x2, read, tail);
    MoveThen(x2, read, tail);
    tail := [read] + tail;
    var take := Move(TakeResult(0.0), false);
    SinceThen(x1, take, tail);
    MoveThen(x1, take, tail);
    tail := [take] + tail;
    var load := Move(WorkerEnds(Load, Loaded([row], None)), false);
    SinceThen(START, load, tail);
    MoveThen(START, load, tail);
  }

  lemma FirstRead(k: Key) returns (x1: Aged, x2: Aged, x3: Aged)
    ensures var load := Move(WorkerEnds(Load, Loaded([Row(k, true, 30, None)], None)), false);
            CanMove(START, load) && x1 == Moved(START, load)
    ensures CanMove(x1, Move(TakeResult(0.0), false)) && x2 == Moved(x1, Move(TakeResult(0.0), false))
    ensures CanMove(x2, Move(UserSpawn(Touch(k)), false)) && x3 == Moved(x2, Move(UserSpawn(Touch(k)), false))
    ensures At(x3, multiset{Touch(k)}, multiset{}, [], []) && x3.s.rows == [Row(k, true, 30, None)]
  {
    hide NextRefresh;
    x1 := Moved(START, Move(WorkerEnds(Load, Loaded([Row(k, true, 30, None)], None)), false));
    assert At(x1, multiset{}, multiset{}, [Message(Load, Loaded([Row(k, true, 30, None)], None))], [false]);
    x2 := Moved(x1, Move(TakeResult(0.0), false));
    assert At(x2, multiset{}, multiset{}, [], []) && x2.s.rows[0] == Row(k, true, 30, None);
    x3 := Moved(x2, Move(UserSpawn(Touch(k)), false));
  }

  lemma AfterReload(x: Aged, job: Job)
    requires job in x.s.running && Produces(job, Failure)
    requires At(x, x.s.running, multiset{}, [], []) && x.s.running[Load] == 0 && x.s.running[Refresh] == 0
    ensures var m := Move(UserReload, false); var y := Moved(x, m);
            CanMove(x, m) && At(y, x.s.running + multiset{Load}, x.s.running, [], []) && y.s.rows == x.s.rows &&
            y.origin == Before && !y.s.loaded && Reloads(x.s, m.action) && !OldReadMayArrive(y) && OldReads(y) == 0 &&
            CanMove(y, Move(WorkerEnds(job, Failure), true))
  {
  }

  lemma LeftRunning(x: Aged, ms: seq<Move>, k: Key)
    requires At(x, multiset{Touch(k), Load}, x.early, [], [])
    requires ms == [Move(WorkerEnds(Touch(k), Failure), true), Move(TakeResult(0.0), false)] && CanRun(x, ms)
    ensures After(x, ms).s.running == multiset{Load} && After(x, ms).s.rows == x.s.rows
  {
    hide Moved, CanMove, CanRun, After;
    assert ms == [ms[0]] + ([ms[1]] + []);
    assert CanMove(x, ms[0]) by { FirstMove(x, ms); }
    EndAt(x, Touch(k), Failure, true);
    var y := Moved(x, ms[0]);
    AtFits(y, x.s.running - multiset{Touch(k)}, x.early - multiset{Touch(k)}, [Message(Touch(k), Failure)], [true]);
    TakenState(y, 0.0);
    NoMove(Moved(y, ms[1]));
    MoveThen(y, ms[1], []);
    MoveThen(x, ms[0], [ms[1]] + []);
  }

  lemma FirstMove(x: Aged, ms: seq<Move>)
    requires CanRun(x, ms) && ms != []
    ensures CanMove(x, ms[0])
  {
  }

  lemma UntilReload(x: Aged, ms: seq<Move>)
    requires CanRun(x, ms) && !EverReloads(x, ms)
    ensures SinceReload(x, ms) == (x, ms)
  {
  }

  /**
   It happens: a refresh started before a delete ends after the reload that follows it, and the
   deleted row is on show again.
   */
  lemma DeletedRowReturns(row: Row)
    ensures exists ms ::
              CanRun(START, ms) && After(START, ms).origin == OldWorker && After(START, ms).s.rows == [row] &&
              var (y, rest) := SinceReload(START, ms);
              Move(WorkerEnds(Load, Loaded([], None)), false) in rest
  {
    hide CanRun, After, EverReloads, SinceReload, Moved, CanMove;
    var load, take := Move(WorkerEnds(Load, Loaded([row], None)), false), Move(TakeResult(0.0), false);
    var gate := Move(TryGate(5.0), false);
    var x1, x2, x3 := FirstRows(row);
    var tail := AfterDelete(x3, row);
    SinceThen(x2, gate, tail);
    MoveThen(x2, gate, tail);
    tail := [gate] + tail;
    SinceThen(x1, take, tail);
    MoveThen(x1, take, tail);
    tail := [take] + tail;
    SinceThen(START, load, tail);
    MoveThen(START, load, tail);
  }

  /** The first load shows the row, and the gate starts a refresh. */
  lemma FirstRows(row: Row) returns (x1: Aged, x2: Aged, x3: Aged)
    ensures var load := Move(WorkerEnds(Load, Loaded([row], None)), false);
            CanMove(START, load) && x1 == Moved(START, load)
    ensures CanMove(x1, Move(TakeResult(0.0), false)) && x2 == Moved(x1, Move(TakeResult(0.0), false))
    ensures CanMove(x2, Move(TryGate(5.0), false)) && x3 == Moved(x2, Move(TryGate(5.0), false))
    ensures At(x3, multiset{Refresh}, multiset{}, [], [])
  {
    NextRefreshBounds([row], 0.0);
    hide NextRefresh;
    x1 := Moved(START, Move(WorkerEnds(Load, Loaded([row], None)), false));
    assert At(x1, multiset{}, multiset{}, [Message(Load, Loaded([row], None))], [false]);
    x2 := Moved(x1, Move(TakeResult(0.0), false));
    assert At(x2, multiset{}, multiset{}, [], []);
    x3 := Moved(x2, Move(TryGate(5.0), false));
  }

  lemma SinceThen(x: Aged, m: Move, ms: seq<Move>)
    requires CanMove(x, m) && CanRun(Moved(x, m), ms)
    ensures CanRun(x, [m] + ms)
    ensures EverReloads(x, [m] + ms) ==> SinceReload(x, [m] + ms) == SinceReload(Moved(x, m), ms)
  {
    hide CanMove, Moved, Reloads, CanRun;
    MoveThen(x, m, ms);
    assert ([m] + ms)[1..] == ms;
  }

  /** A state with one result waiting or none, and what its last reads left. */
  ghost predicate At(x: Aged, running: multiset<Job>, early: multiset<Job>, waiting: seq<Message>, marks: seq<bool>) {
    Fits(x) && x.s.running == running && x.early == early && x.s.channel == waiting && x.marks == marks
  }

  lemma EndAt(x: Aged, job: Job, r: JobResult, early: bool)
    requires At(x, x.s.running, x.early, [], []) && CanMove(x, Move(WorkerEnds(job, r), early))
    ensures At(Moved(x, Move(WorkerEnds(job, r), early)), x.s.running - multiset{job},
               if early then x.early - multiset{job} else x.early, [Message(job, r)], [early])
    ensures Moved(x, Move(WorkerEnds(job, r), early)).s.rows == x.s.rows
  {
    MovedFits(x, Move(WorkerEnds(job, r), early));
  }

  lemma TakeAt(x: Aged, m: Message, mark: bool)
    requires At(x, x.s.running, x.early, [m], [mark])
    ensures var take := Move(TakeResult(0.0), false);
            CanMove(x, take) &&
            if m.result.Success? then At(Moved(x, take), x.s.running + multiset{Load}, x.s.running, [], [])
            else
              At(Moved(x, take), x.s.running, x.early, [], []) &&
              (m.result.Refreshed? ==>
                 Moved(x, take).s.rows == m.result.rows && Moved(x, take).origin == if mark then OldWorker else NewWorker)
  {
    hide NextRefresh;
    MovedFits(x, Move(TakeResult(0.0), false));
    TakingRunning(x.s, 0.0);
  }

  lemma CommandAt(x: Aged)
    requires Fits(x)
    ensures var m := Move(UserSpawn(Command), false);
            CanMove(x, m) && At(Moved(x, m), x.s.running + multiset{Command}, x.early, x.s.channel, x.marks)
  {
  }

  /** The delete, its reload and only then the end of the refresh. */
  lemma AfterDelete(x: Aged, row: Row) returns (ms: seq<Move>)
    requires At(x, multiset{Refresh}, multiset{}, [], [])
    ensures CanRun(x, ms) && EverReloads(x, ms) && After(x, ms).origin == OldWorker && After(x, ms).s.rows == [row]
    ensures Move(WorkerEnds(Load, Loaded([], None)), false) in SinceReload(x, ms).1
  {
    hide Moved, CanRun, After, EverReloads, SinceReload, Fits, Step;
    var spawn, end, take := Move(UserSpawn(Command), false), Move(WorkerEnds(Command, Success), false), Move(TakeResult(0.0), false);
    assert Fits(x) by { AtFits(x, multiset{Refresh}, multiset{}, [], []); }
    CommandAt(x);
    var x1 := Moved(x, spawn);
    assert CanMove(x1, end) by { AtFits(x1, multiset{Refresh, Command}, multiset{}, [], []); }
    EndAt(x1, Command, Success, false);
    var x2 := Moved(x1, end);
    assert x1.s.running - multiset{Command} == multiset{Refresh};
    TakeAt(x2, Message(Command, Success), false);
    var x3 := Moved(x2, take);
    assert x3.s.running == multiset{Refresh, Load};
    ms := LateRefresh(x3, row);
    SinceThen(x2, take, ms);
    MoveThen(x2, take, ms);
    ms := [take] + ms;
    SinceThen(x1, end, ms);
    MoveThen(x1, end, ms);
    ms := [end] + ms;
    SinceThen(x, spawn, ms);
    MoveThen(x, spawn, ms);
    ms := [spawn] + ms;
  }

  lemma AtFits(x: Aged, running: multiset<Job>, early: multiset<Job>, waiting: seq<Message>, marks: seq<bool>)
    requires At(x, running, early, waiting, marks)
    ensures Fits(x)
  {
  }

  /** The new load ends first, the old refresh after it. */
  lemma LateRefresh(x: Aged, row: Row) returns (ms: seq<Move>)
    requires At(x, multiset{Refresh, Load}, multiset{Refresh}, [], [])
    ensures CanRun(x, ms) && !EverReloads(x, ms) && After(x, ms).origin == OldWorker && After(x, ms).s.rows == [row]
    ensures SinceReload(x, ms) == (x, ms) && Move(WorkerEnds(Load, Loaded([], None)), false) in ms
  {
    hide Moved, CanRun, After, EverReloads, Fits, Step;
    var load := Move(WorkerEnds(Load, Loaded([], None)), false);
    var refresh := Move(WorkerEnds(Refresh, Refreshed([row], None)), true);
    var take := Move(TakeResult(0.0), false);
    assert CanMove(x, load) by { AtFits(x, multiset{Refresh, Load}, multiset{Refresh}, [], []); }
    EndAt(x, Load, Loaded([], None), false);
    var x1 := Moved(x, load);
    assert x.s.running - multiset{Load} == multiset{Refresh};
    TakeAt(x1, Message(Load, Loaded([], None)), false);
    var x2 := Moved(x1, take);
    assert CanMove(x2, refresh) by { AtFits(x2, multiset{Refresh}, multiset{Refresh}, [], []); }
    EndAt(x2, Refresh, Refreshed([row], None), true);
    var x3 := Moved(x2, refresh);
    TakeAt(x3, Message(Refresh, Refreshed([row], None)), true);
    var x4 := Moved(x3, take);
    AtFits(x4, x4.s.running, x4.early, [], []);
    NoMove(x4);
    MoveThen(x3, take, []);
    MoveThen(x2, refresh, [take] + []);
    MoveThen(x1, take, [refresh] + ([take] + []));
    MoveThen(x, load, [take] + ([refresh] + ([take] + [])));
    ms := [load] + ([take] + ([refresh] + ([take] + [])));
    assert ms[0] == load;
  }
}
