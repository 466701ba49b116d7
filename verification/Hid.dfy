/**
 The USB-HID transport: frames out, then a receive loop that polls until the response is
 complete, the deadline passes or an error occurs, prompting once for a button press.
 */
module Hid {
  import opened Bytes
  import opened HidFrame
  import opened Proto
  import opened Errors

  /**
   What one turn of the receive loop meets: the deadline has passed, the read fails, or
   it returns a report (empty when it timed out). Beyond the last event the deadline has passed.
   */
  datatype ReadEvent = Deadline | ReadFailure | Report(bytes: seq<byte>)

  /** The loop ends here, for reasons other than the reports themselves. */
  predicate Stops(events: seq<ReadEvent>) {
    events == [] || !events[0].Report?
  }

  /** The non-empty reports read before the loop is stopped from outside. */
  function Reports(events: seq<ReadEvent>): seq<seq<byte>> {
    if Stops(events) then []
    else if events[0].bytes == [] then Reports(events[1..])
    else [events[0].bytes] + Reports(events[1..])
  }

  /** The error with which an unfinished loop is stopped. */
  function StopError(events: seq<ReadEvent>): Error {
    if !Stops(events) then StopError(events[1..])
    else if events != [] && events[0].ReadFailure? then Transport
    else Applet(ButtonPressRequired)
  }

  /** The reports the assembler looks at: up to the one that completes or fails it. */
  function Taken(a: Asm, raws: seq<seq<byte>>): seq<seq<byte>>
    decreases raws
  {
    if raws == [] then []
    else
      var (b, r) := PushStep(a, raws[0]);
      [raws[0]] + if r.Err? || r.value.Done? then [] else Taken(b, raws[1..])
  }

  /** Reports `i` to `i + 2` are all busy. */
  ghost predicate ThreeBusyAt(raws: seq<seq<byte>>, i: nat) {
    i + 2 < |raws| && IsBusy(raws[i]) && IsBusy(raws[i + 1]) && IsBusy(raws[i + 2])
  }

  /** Three consecutive busy reports occur somewhere in `raws`. */
  ghost predicate ThreeBusyInARow(raws: seq<seq<byte>>) {
    exists i: nat :: ThreeBusyAt(raws, i)
  }

  function Received(events: seq<ReadEvent>): Response {
    match Feed(NEW_ASM, Reports(events))
    case Reading(_) => Err(StopError(events))
    case Failed(e) => Err(Frame(e))
    case Complete(a) =>
      match SplitResponse(a.buf)
      case None => Err(EmptyResponse)
      case Some(r) => Ok(r)
  }

  /** What one run of the receive loop leaves unread: the events after the one that ends it. */
  function Left(a: Asm, events: seq<ReadEvent>): seq<ReadEvent>
    decreases |events|
  {
    if events == [] then []
    else if Stops(events) then events[1..]
    else if events[0].bytes == [] then Left(a, events[1..])
    else
      var (b, r) := PushStep(a, events[0].bytes);
      if r.Err? || r.value.Done? then events[1..] else Left(b, events[1..])
  }

  class HidTransport {
    var writable: nat
    var written: seq<seq<byte>>
    var events: seq<ReadEvent>
    var hasPrompt: bool
    var prompts: nat

    /** A device that takes `reports` output reports before writing fails. */
    constructor (reports: nat, incoming: seq<ReadEvent>, prompt: bool)
      ensures writable == reports && written == [] && events == incoming && hasPrompt == prompt && prompts == 0
    {
      writable, written, events, hasPrompt, prompts := reports, [], incoming, prompt, 0;
    }

    method WriteReport(frame: seq<byte>) returns (r: Result<(), Error>)
      modifies this`writable, this`written
      ensures if old(writable) == 0
              then r == Err(Transport) && writable == 0 && written == old(written)
              else r == Ok(()) && writable == old(writable) - 1 && written == old(written) + [frame]
    {
      if writable == 0 {
        return Err(Transport);
      }
      writable := writable - 1;
      written := written + [frame];
      r := Ok(());
    }

    method SendAll(frames: seq<seq<byte>>) returns (r: Result<(), Error>)
      modifies this`writable, this`written
      ensures r.Ok? <==> |frames| <= old(writable)
      ensures r.Ok? ==> written == old(written) + frames
      ensures r.Err? ==> r == Err(Transport) && written == old(written) + frames[..old(writable)]
      ensures writable == if r.Ok? then old(writable) - |frames| else 0
    {
      for i := 0 to |frames|
        invariant i <= old(writable) && writable == old(writable) - i
        invariant written == old(written) + frames[..i]
      {
        var _ :- WriteReport(frames[i]);
      }
      assert frames[..|frames|] == frames;
      r := Ok(());
    }

    method Transmit(apdu: seq<byte>, detectButtonWait: bool) returns (r: Response)
      modifies this
      ensures hasPrompt == old(hasPrompt)
      ensures FrameCount(apdu) <= old(writable) ==>
                r == Received(old(events)) && events == Left(NEW_ASM, old(events)) &&
                written == old(written) + SendFrames(apdu) && writable == old(writable) - FrameCount(apdu)
      ensures FrameCount(apdu) <= old(writable) ==>
                prompts == old(prompts) +
                  if detectButtonWait && hasPrompt && ThreeBusyInARow(Taken(NEW_ASM, Reports(old(events)))) then 1 else 0
      ensures FrameCount(apdu) > old(writable) ==>
                r == Err(Transport) && prompts == old(prompts) && events == old(events) &&
                written == old(written) + SendFrames(apdu)[..old(writable)] && writable == 0
    {
      hide Feed, Taken, Reports, Received, Left, ThreeBusyInARow, SendFrames, FrameCount;
      var frames := BuildSendFrames(apdu);
      FramesSent(apdu);
      var _ :- SendAll(frames);
      r := Receive(detectButtonWait);
    }

    /** The receive loop. */
    method Receive(detectButtonWait: bool) returns (r: Response)
      modifies this`events, this`prompts
      ensures r == Received(old(events)) && events == Left(NEW_ASM, old(events))
      ensures prompts == old(prompts) +
                if detectButtonWait && hasPrompt && ThreeBusyInARow(Taken(NEW_ASM, Reports(old(events)))) then 1 else 0
    {
      hide PushStep, Feed, Taken, Streak, Reports, Received, Left, Going, ThreeBusyInARow, IsBusy, SplitResponse;
      ghost var all, start, taken: seq<seq<byte>> := events, prompts, [];
      NothingTaken(all);
      var asm := new ResponseAssembler();
      var prompted := false;
      while true
        invariant Going(all, events, asm.State(), taken)
        invariant prompted == (detectButtonWait && ThreeBusyInARow(taken))
        invariant prompts == start + if prompted && hasPrompt then 1 else 0
        decreases |events|
      {
        if Stops(events) {
          LoopStops(all, events, asm.State(), taken);
        }
        if events == [] {
          return Err(Applet(ButtonPressRequired));
        }
        var event := events[0];
        if event.Report? {
          LoopTurns(all, events, asm.State(), taken);
        }
        events := events[1..];
        if event.Deadline? {
          return Err(Applet(ButtonPressRequired));
        }
        if event.ReadFailure? {
          return Err(Transport);
        }
        if event.bytes != [] {
          StreakOne(taken, event.bytes);
          var step := asm.Push(event.bytes);
          taken := taken + [event.bytes];
          if step.Err? {
            return Err(Frame(step.error));
          }
          match step.value {
            case Busy(retries) =>
              if detectButtonWait && !prompted && retries >= 3 {
                if hasPrompt {
                  prompts := prompts + 1;
                }
                prompted := true;
              }
            case NeedMore =>
            case Done =>
              var response := asm.IntoResponse();
              if response.None? {
                return Err(EmptyResponse);
              }
              return Ok(response.value);
          }
        }
      }
    }
  }

  /** The loop, begun with the events `all`, has looked at the reports `taken`; `events` are left. */
  ghost predicate Going(all: seq<ReadEvent>, events: seq<ReadEvent>, a: Asm, taken: seq<seq<byte>>) {
    && Feed(NEW_ASM, Reports(all)) == Feed(a, Reports(events))
    && Taken(NEW_ASM, Reports(all)) == taken + Taken(a, Reports(events))
    && StopError(all) == StopError(events)
    && Left(NEW_ASM, all) == Left(a, events)
    && a.busyRetries == Streak(taken)
  }

  lemma NothingTaken(all: seq<ReadEvent>)
    ensures Going(all, all, NEW_ASM, []) && !ThreeBusyInARow([])
  {
    hide Left, Feed, Reports, StopError;
    assert [] + Taken(NEW_ASM, Reports(all)) == Taken(NEW_ASM, Reports(all));
  }

  lemma LoopStops(all: seq<ReadEvent>, events: seq<ReadEvent>, a: Asm, taken: seq<seq<byte>>)
    requires Going(all, events, a, taken) && Stops(events)
    ensures Received(all) == Err(if events != [] && events[0].ReadFailure? then Transport else Applet(ButtonPressRequired))
    ensures Left(NEW_ASM, all) == if events == [] then [] else events[1..]
    ensures Taken(NEW_ASM, Reports(all)) == taken
  {
    assert Feed(a, []) == Reading(a) && Taken(a, []) == [];
    assert taken + [] == taken;
  }

  /** One turn of the loop that meets a report. */
  lemma LoopTurns(all: seq<ReadEvent>, events: seq<ReadEvent>, a: Asm, taken: seq<seq<byte>>)
    requires Going(all, events, a, taken) && events != [] && events[0].Report?
    ensures events[0].bytes == [] ==> Going(all, events[1..], a, taken)
    ensures var raw := events[0].bytes; var (b, r) := PushStep(a, raw); var now := taken + [raw];
            raw != [] ==>
              (r.Ok? && r.value.Busy? ==> r.value.retries == Streak(now)) &&
              (r.Ok? && !r.value.Busy? ==> Streak(now) == 0) &&
              (r.Ok? && !r.value.Done? ==> Going(all, events[1..], b, now)) &&
              (r.Err? ==> Streak(now) < 3 || ThreeBusyInARow(taken)) &&
              (r.Err? || r.value.Done? ==> Taken(NEW_ASM, Reports(all)) == now && Left(NEW_ASM, all) == events[1..]) &&
              (r.Err? ==> Received(all) == Err(Frame(r.error))) &&
              (r.Ok? && r.value.Done? ==>
                Received(all) == match SplitResponse(b.buf) case None => Err(EmptyResponse) case Some(x) => Ok(x))
  {
    hide PushStep, IsBusy, SplitResponse, ThreeBusyInARow;
    var raw, rest := events[0].bytes, Reports(events[1..]);
    if raw != [] {
      FeedOne(a, raw, rest);
      TakenOne(a, raw, rest, taken);
      StreakOne(taken, raw);
      PushBusyOrNot(a, raw);
    }
  }

  lemma FramesSent(apdu: seq<byte>)
    ensures |SendFrames(apdu)| == FrameCount(apdu)
  {
  }

  lemma FeedOne(a: Asm, raw: seq<byte>, rest: seq<seq<byte>>)
    ensures var (b, r) := PushStep(a, raw);
            Feed(a, [raw] + rest) ==
            if r.Err? then Failed(r.error) else if r.value.Done? then Complete(b) else Feed(b, rest)
  {
    assert ([raw] + rest)[1..] == rest;
  }

  lemma TakenOne(a: Asm, raw: seq<byte>, rest: seq<seq<byte>>, taken: seq<seq<byte>>)
    ensures var (b, r) := PushStep(a, raw);
            taken + Taken(a, [raw] + rest) ==
            if r.Err? || r.value.Done? then taken + [raw] else taken + [raw] + Taken(b, rest)
  {
    assert ([raw] + rest)[1..] == rest;
  }

  /** The retry counter follows the streak of busy reports. */
  lemma PushBusyOrNot(a: Asm, raw: seq<byte>)
    ensures var (b, r) := PushStep(a, raw);
            r.Ok? ==> (r.value.Busy? <==> IsBusy(raw)) && b.busyRetries == if IsBusy(raw) then a.busyRetries + 1 else 0
    ensures var (b, r) := PushStep(a, raw);
            r.Ok? && r.value.Busy? ==> r.value.retries == b.busyRetries
    ensures PushStep(a, raw).1.Err? && IsBusy(raw) ==> a.busyRetries == U32_MAX
  {
  }

  lemma {:induction false} StreakIsBusy(raws: seq<seq<byte>>, i: nat)
    requires |raws| - Streak(raws) <= i < |raws|
    ensures IsBusy(raws[i])
  {
    if i < |raws| - 1 {
      StreakIsBusy(raws[..|raws| - 1], i);
    }
  }

  lemma {:induction false} StreakBound(raws: seq<seq<byte>>)
    ensures Streak(raws) <= |raws|
  {
    if raws != [] {
      StreakBound(raws[..|raws| - 1]);
    }
  }

  ghost predicate EndsWithThreeBusy(raws: seq<seq<byte>>) {
    var n := |raws|;
    n >= 3 && IsBusy(raws[n - 3]) && IsBusy(raws[n - 2]) && IsBusy(raws[n - 1])
  }

  lemma StreakOfThree(raws: seq<seq<byte>>)
    ensures Streak(raws) >= 3 <==> EndsWithThreeBusy(raws)
  {
    hide IsBusy;
    var n := |raws|;
    StreakBound(raws);
    if Streak(raws) >= 3 {
      StreakIsBusy(raws, n - 1);
      StreakIsBusy(raws, n - 2);
      StreakIsBusy(raws, n - 3);
    }
    if EndsWithThreeBusy(raws) {
      var one, two := raws[..n - 1], raws[..n - 2];
      assert one[..n - 2] == two;
      assert Streak(raws) == 1 + Streak(one) && Streak(one) == 1 + Streak(two) && Streak(two) >= 1;
    }
  }

  lemma ThreeBusyGrows(raws: seq<seq<byte>>, raw: seq<byte>)
    ensures ThreeBusyInARow(raws + [raw]) <==> ThreeBusyInARow(raws) || EndsWithThreeBusy(raws + [raw])
    ensures EndsWithThreeBusy(raws) ==> ThreeBusyInARow(raws)
  {
    hide IsBusy;
    var all, n := raws + [raw], |raws|;
    forall i: nat
      ensures ThreeBusyAt(all, i) <==> ThreeBusyAt(raws, i) || (i + 2 == n && EndsWithThreeBusy(all))
    {
    }
    assert EndsWithThreeBusy(raws) ==> ThreeBusyAt(raws, n - 3);
    assert EndsWithThreeBusy(all) ==> ThreeBusyAt(all, n - 2);
  }

  /** Three busy reports in a row have occurred once the streak has reached three. */
  lemma StreakOne(raws: seq<seq<byte>>, raw: seq<byte>)
    ensures Streak(raws + [raw]) == if IsBusy(raw) then Streak(raws) + 1 else 0
    ensures ThreeBusyInARow(raws + [raw]) <==> ThreeBusyInARow(raws) || Streak(raws + [raw]) >= 3
    ensures Streak(raws) >= 3 ==> ThreeBusyInARow(raws)
  {
    hide IsBusy, ThreeBusyInARow, EndsWithThreeBusy;
    assert (raws + [raw])[..|raws|] == raws;
    StreakOfThree(raws);
    StreakOfThree(raws + [raw]);
    ThreeBusyGrows(raws, raw);
  }

  lemma {:induction false} StopErrorKind(events: seq<ReadEvent>)
    ensures IsLinkError(StopError(events))
  {
    if !Stops(events) {
      StopErrorKind(events[1..]);
    }
  }

  lemma ReceivedError(events: seq<ReadEvent>)
    ensures Received(events).Err? ==> IsLinkError(Received(events).error)
  {
    hide StopError, Feed, Reports, SplitResponse;
    StopErrorKind(events);
  }

  /** The loop looks at the reports up to the first that completes or fails it, and at all if none does. */
  lemma {:induction false} TakenIs(a: Asm, raws: seq<seq<byte>>)
    ensures Taken(a, raws) <= raws && Feed(a, Taken(a, raws)) == Feed(a, raws)
    ensures Feed(a, raws).Reading? ==> Taken(a, raws) == raws
    ensures forall j :: 0 <= j < |Taken(a, raws)| ==> Feed(a, raws[..j]).Reading?
    decreases raws
  {
    hide PushStep;
    if raws != [] {
      var (b, r) := PushStep(a, raws[0]);
      var taken := Taken(a, raws);
      var goes := r.Ok? && !r.value.Done?;
      if goes {
        TakenIs(b, raws[1..]);
      }
      assert taken[1..] == if goes then Taken(b, raws[1..]) else [];
      forall j | 0 <= j < |taken|
        ensures Feed(a, raws[..j]).Reading?
      {
        if j > 0 {
          assert raws[..j][1..] == raws[1..][..j - 1];
        }
      }
      assert raws == [raws[0]] + raws[1..];
    }
  }

  /** The first event that is no report stops the loop; past the last event the deadline has passed. */
  lemma {:induction false} StoppedAt(events: seq<ReadEvent>, i: nat)
    requires i <= |events| && (i < |events| ==> !events[i].Report?)
    requires forall j :: 0 <= j < i ==> events[j].Report?
    ensures StopError(events) == if i < |events| && events[i].ReadFailure? then Transport else Applet(ButtonPressRequired)
    ensures Reports(events) == Reports(events[..i])
  {
    if i > 0 {
      StoppedAt(events[1..], i - 1);
      assert events[..i][1..] == events[1..][..i - 1];
    } else {
      assert events[..0] == [];
    }
  }

  /** Every outcome of the receive loop: the stop, the assembler's error, a response too short, or data and status word. */
  lemma ReceivedExactly(events: seq<ReadEvent>)
    ensures match Feed(NEW_ASM, Reports(events))
            case Reading(_) => Received(events) == Err(StopError(events))
            case Failed(e) => Received(events) == Err(Frame(e))
            case Complete(a) =>
              var n := |a.buf|;
              if n < 2 then Received(events) == Err(EmptyResponse)
              else Received(events) == Ok((a.buf[..n - 2], a.buf[n - 2] as int * 0x100 + a.buf[n - 1] as int))
  {
    hide Feed, Reports, StopError;
  }

  // ----------------------------------------------------- a device that answers

  /** Nothing after the completing report is looked at. */
  lemma {:induction false} FeedStops(a: Asm, raws: seq<seq<byte>>, more: seq<seq<byte>>)
    requires Feed(a, raws).Complete?
    ensures Feed(a, raws + more) == Feed(a, raws)
    decreases raws
  {
    hide PushStep;
    var (b, r) := PushStep(a, raws[0]);
    if !r.value.Done? {
      FeedStops(b, raws[1..], more);
      assert (raws + more)[1..] == raws[1..] + more;
    }
  }

  /**
   If the device frames `data` and `sw` and they arrive in time, with busy reports and
   empty reads anywhere in between, the host returns exactly `data` and `sw`.
   */
  lemma AnswerIsReceived(data: seq<byte>, sw: u16, events: seq<ReadEvent>, n: nat)
    requires n <= |Reports(events)| && Delivery(data + U16Be(sw), 0, 0, Reports(events)[..n])
    ensures Received(events) == Ok((data, sw))
  {
    hide Reports, Delivery, Feed, U16Be, SplitResponse;
    var raws := Reports(events);
    FramingRoundTrip(data + U16Be(sw), raws[..n]);
    FeedStops(NEW_ASM, raws[..n], raws[n..]);
    assert raws == raws[..n] + raws[n..];
    SplitIffAppended(data + U16Be(sw), data, sw);
  }

  /**
   HID is transparent: a device that reassembles what the host writes has the command, and
   the host that reads the device's framed answer in time has the data and status word.
   */
  lemma HidIsTransparent(apdu: seq<byte>, data: seq<byte>, sw: u16, events: seq<ReadEvent>, n: nat)
    requires n <= |Reports(events)| && Delivery(data + U16Be(sw), 0, 0, Reports(events)[..n])
    ensures Feed(NEW_ASM, SendFrames(apdu)).Complete? && Feed(NEW_ASM, SendFrames(apdu)).asm.buf == apdu
    ensures Received(events) == Ok((data, sw))
  {
    hide Reports, Delivery, Feed, Received;
    SentIsDelivery(apdu, 0);
    assert SendFrames(apdu)[0..] == SendFrames(apdu);
    FramingRoundTrip(apdu, SendFrames(apdu));
    AnswerIsReceived(data, sw, events, n);
  }
}
