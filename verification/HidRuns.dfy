/**
 Commands one after the other over HID. A transmit does not discard what it leaves unread,
 so an answer that comes after its deadline meets the commands that follow.
 */
module HidRuns {
  import opened Bytes
  import opened HidFrame
  import opened Proto
  import opened Errors
  import opened Hid

  /** What is unread after `n` transmits, each written in full. */
  function After(events: seq<ReadEvent>, n: nat): seq<ReadEvent>
    decreases n
  {
    if n == 0 then events else After(Left(NEW_ASM, events), n - 1)
  }

  /** The response of transmit `k`, counted from 0. */
  function ResponseAt(events: seq<ReadEvent>, k: nat): Response {
    Received(After(events, k))
  }

  // ------------------------------------------------------------ whole answers

  /** What one transmit meets: a whole answer, or no part of one until the loop is stopped. */
  datatype Turn =
    | Answers(data: seq<byte>, sw: u16, events: seq<ReadEvent>)
    | Expires(events: seq<ReadEvent>)

  ghost predicate EndsWithReport(events: seq<ReadEvent>) {
    (forall i :: 0 <= i < |events| ==> events[i].Report?) && events != [] && events[|events| - 1].bytes != []
  }

  ghost predicate OnlyWaiting(events: seq<ReadEvent>) {
    && events != [] && !events[|events| - 1].Report?
    && forall i :: 0 <= i < |events| - 1 ==> events[i].Report? && (events[i].bytes == [] || IsBusy(events[i].bytes))
  }

  ghost predicate WellFormed(t: Turn) {
    match t
    case Answers(data, sw, events) => EndsWithReport(events) && Delivery(data + U16Be(sw), 0, 0, Reports(events))
    case Expires(events) => OnlyWaiting(events) && |events| <= U32_MAX
  }

  function Stream(turns: seq<Turn>): seq<ReadEvent> {
    if turns == [] then [] else turns[0].events + Stream(turns[1..])
  }

  /** The answers the device gives, in order. */
  function AnswersIn(turns: seq<Turn>): seq<(seq<byte>, u16)> {
    if turns == [] then []
    else (if turns[0].Answers? then [(turns[0].data, turns[0].sw)] else []) + AnswersIn(turns[1..])
  }

  /** How many of the first `k` turns expire. */
  function Expired(turns: seq<Turn>, k: nat): (n: nat)
    requires k <= |turns|
    ensures n <= k
  {
    if k == 0 then 0 else (if turns[0].Expires? then 1 else 0) + Expired(turns[1..], k - 1)
  }

  lemma {:induction false} ReportsThen(events: seq<ReadEvent>, more: seq<ReadEvent>)
    requires forall i :: 0 <= i < |events| ==> events[i].Report?
    ensures Reports(events + more) == Reports(events) + Reports(more)
  {
    if events == [] {
      assert events + more == more;
    } else {
      assert (events + more)[1..] == events[1..] + more;
      ReportsThen(events[1..], more);
    }
  }

  /** A delivery is read to its last report and no further. */
  lemma {:induction false} DeliveryLeaves(msg: seq<byte>, k: nat, a: Asm, events: seq<ReadEvent>, more: seq<ReadEvent>)
    requires k < FrameCount(msg) && a.received % 16 == k % 16 && EndsWithReport(events)
    requires Delivery(msg, k, a.busyRetries, Reports(events))
    ensures Left(a, events + more) == more
    decreases |events|
  {
    hide FrameAt, FrameCount, Carried, PushStep, IsBusy, IsReportOf;
    var raw, rest := events[0].bytes, events[1..];
    assert (events + more)[1..] == rest + more;
    assert Reports([]) == [];
    if raw == [] {
      DeliveryLeaves(msg, k, a, rest, more);
    } else {
      var (b, r) := PushStep(a, raw);
      assert Reports(events)[1..] == Reports(rest);
      if IsBusy(raw) {
        PushBusy(a, raw);
        DeliveryLeaves(msg, k, b, rest, more);
      } else {
        PushFrame(msg, k, a, raw);
        CountWraps(a.received, k);
        if k + 1 < FrameCount(msg) {
          DeliveryLeaves(msg, k + 1, b, rest, more);
        } else if rest != [] {
          LastIsReported(rest);
        }
      }
    }
  }

  lemma {:induction false} LastIsReported(events: seq<ReadEvent>)
    requires EndsWithReport(events)
    ensures Reports(events) != []
  {
    if events[0].bytes == [] {
      LastIsReported(events[1..]);
    }
  }

  lemma {:induction false} WaitingLeaves(a: Asm, events: seq<ReadEvent>, more: seq<ReadEvent>)
    requires OnlyWaiting(events) && a.busyRetries + |events| <= U32_MAX + 1
    ensures Left(a, events + more) == more && Feed(a, Reports(events + more)).Reading?
    ensures StopError(events + more) == StopError(events)
    decreases |events|
  {
    hide PushStep, IsBusy;
    var rest := events[1..];
    assert (events + more)[1..] == rest + more;
    if events[0].Report? {
      var raw := events[0].bytes;
      if raw == [] {
        WaitingLeaves(a, rest, more);
      } else {
        PushBusy(a, raw);
        assert Reports(events + more)[1..] == Reports(rest + more);
        WaitingLeaves(PushStep(a, raw).0, rest, more);
      }
    } else {
      assert Reports(events + more) == [];
    }
  }

  lemma TurnTaken(t: Turn, more: seq<ReadEvent>)
    requires WellFormed(t)
    ensures Left(NEW_ASM, t.events + more) == more
    ensures Received(t.events + more) == if t.Answers? then Ok((t.data, t.sw)) else Err(StopError(t.events))
  {
    hide Left, Delivery, Feed, StopError, Reports, FrameCount, IsBusy;
    match t {
      case Answers(data, sw, events) =>
        var msg := data + U16Be(sw);
        assert FrameCount(msg) > 0 by { SomeFrame(msg); }
        DeliveryLeaves(msg, 0, NEW_ASM, events, more);
        ReportsThen(events, more);
        var n := |Reports(events)|;
        assert Reports(events + more)[..n] == Reports(events);
        AnswerIsReceived(data, sw, events + more, n);
      case Expires(events) =>
        WaitingLeaves(NEW_ASM, events, more);
    }
  }

  lemma SomeFrame(msg: seq<byte>)
    ensures FrameCount(msg) > 0
  {
  }

  /**
   Transmit `k` gets the device's answer number `k` less the transmits that expired before it,
   whatever came in between.
   */
  lemma {:induction false} AnswersShift(turns: seq<Turn>, k: nat)
    requires AllWellFormed(turns) && k < |turns|
    ensures turns[k].Answers? ==> k - Expired(turns, k) < |AnswersIn(turns)|
    ensures ResponseAt(Stream(turns), k) ==
            if turns[k].Answers? then Ok(AnswersIn(turns)[k - Expired(turns, k)]) else Err(StopError(turns[k].events))
  {
    hide WellFormed, Received, StopError, ResponseAt, Left, AllWellFormed, AnswersIn;
    WellFormedRest(turns);
    AnswersFirst(turns);
    TurnTaken(turns[0], Stream(turns[1..]));
    ResponseFirst(Stream(turns), k);
    if k > 0 {
      AnswersShift(turns[1..], k - 1);
      assert turns[1..][k - 1] == turns[k];
    }
  }

  ghost predicate AllWellFormed(turns: seq<Turn>) {
    forall i :: 0 <= i < |turns| ==> WellFormed(turns[i])
  }

  lemma WellFormedRest(turns: seq<Turn>)
    requires AllWellFormed(turns) && turns != []
    ensures WellFormed(turns[0]) && AllWellFormed(turns[1..])
  {
    hide WellFormed;
  }

  lemma AnswersFirst(turns: seq<Turn>)
    requires turns != []
    ensures var (all, rest) := (AnswersIn(turns), AnswersIn(turns[1..]));
            if turns[0].Expires? then all == rest
            else |all| == |rest| + 1 && all[0] == (turns[0].data, turns[0].sw) &&
                 forall i :: 0 < i < |all| ==> all[i] == rest[i - 1]
  {
  }

  lemma ResponseFirst(events: seq<ReadEvent>, k: nat)
    ensures ResponseAt(events, 0) == Received(events)
    ensures k > 0 ==> ResponseAt(events, k) == ResponseAt(Left(NEW_ASM, events), k - 1)
    ensures k > 0 ==> After(events, k) == After(Left(NEW_ASM, events), k - 1)
  {
    hide Received, Left;
  }

  // ------------------------------------------------------- part of an answer

  /** The frames `i..j` of a message, as the device sends them. */
  function Frames(msg: seq<byte>, i: nat, j: nat): (events: seq<ReadEvent>)
    requires i <= j <= FrameCount(msg)
    decreases j - i
  {
    if i == j then [] else [Report(FrameAt(msg, i))] + Frames(msg, i + 1, j)
  }

  lemma FirstFrame(msg: seq<byte>, i: nat, j: nat, more: seq<ReadEvent>)
    requires i < j <= FrameCount(msg)
    ensures var events := Frames(msg, i, j) + more;
            events != [] && events[0] == Report(FrameAt(msg, i)) && events[1..] == Frames(msg, i + 1, j) + more &&
            events[0].bytes != []
  {
    hide FrameCount;
  }

  /** The assembler after the first `k` frames of a message. */
  function Partly(msg: seq<byte>, k: nat): Asm
    requires k < FrameCount(msg)
  {
    Asm(msg[..Carried(msg, k)], k % 0x100, 0, false)
  }

  lemma NoFrames(msg: seq<byte>, i: nat, more: seq<ReadEvent>)
    requires i <= FrameCount(msg)
    ensures Frames(msg, i, i) + more == more
  {
    hide FrameCount;
  }

  /** A report that neither completes nor fails the assembler. */
  lemma FirstReport(a: Asm, events: seq<ReadEvent>)
    requires events != [] && events[0].Report? && events[0].bytes != []
    requires PushStep(a, events[0].bytes).1 == Ok(NeedMore)
    ensures var b := PushStep(a, events[0].bytes).0;
            Feed(a, Reports(events)) == Feed(b, Reports(events[1..])) && Left(a, events) == Left(b, events[1..]) &&
            StopError(events) == StopError(events[1..])
  {
    hide PushStep;
    assert Reports(events)[1..] == Reports(events[1..]);
  }

  lemma {:induction false} PartRead(msg: seq<byte>, i: nat, k: nat, more: seq<ReadEvent>)
    requires i <= k < FrameCount(msg)
    ensures Feed(Partly(msg, i), Reports(Frames(msg, i, k) + more)) == Feed(Partly(msg, k), Reports(more))
    ensures Left(Partly(msg, i), Frames(msg, i, k) + more) == Left(Partly(msg, k), more)
    ensures StopError(Frames(msg, i, k) + more) == StopError(more)
    decreases k - i
  {
    hide FrameAt, FrameCount, Carried, PushStep, IsBusy, IsReportOf, Feed, Left, Reports, StopError, Frames;
    if i == k {
      NoFrames(msg, i, more);
    } else {
      FirstFrame(msg, i, k, more);
      AsSent(FrameAt(msg, i));
      PushFrame(msg, i, Partly(msg, i), FrameAt(msg, i));
      ChunksConcatenate(msg, i);
      TrueCount(i);
      FirstReport(Partly(msg, i), Frames(msg, i, k) + more);
      PartRead(msg, i + 1, k, more);
    }
  }

  /** The transmit whose deadline passes after `k` frames asks for the button and has read them. */
  lemma DeadlineInside(msg: seq<byte>, k: nat, more: seq<ReadEvent>)
    requires k < FrameCount(msg)
    ensures var events := Frames(msg, 0, k) + ([Deadline] + more);
            Received(events) == Err(Applet(ButtonPressRequired)) && Left(NEW_ASM, events) == more
  {
    hide FrameCount, PushStep;
    ChunksConcatenate(msg, 0);
    PartRead(msg, 0, k, [Deadline] + more);
    assert Reports([Deadline] + more) == [];
  }

  /** What a transmit makes of frames `k` to the end of an earlier answer. */
  lemma LateFrames(msg: seq<byte>, k: nat, more: seq<ReadEvent>)
    requires k < FrameCount(msg)
    ensures var n := FrameCount(msg); var events := Frames(msg, k, n) + more;
            if k % 16 != 0
            then Received(events) == Err(Frame(OutOfSequence(0, k % 16))) &&
                 Left(NEW_ASM, events) == Frames(msg, k + 1, n) + more
            else Received(events) == AsResponse(msg[Carried(msg, k)..]) && Left(NEW_ASM, events) == more
  {
    hide FrameAt, FrameCount, Carried, PushStep, IsBusy, IsReportOf, Delivery;
    var n := FrameCount(msg);
    var late := Frames(msg, k, n);
    var events := late + more;
    FirstFrame(msg, k, n, more);
    if k % 16 != 0 {
      AsSent(FrameAt(msg, k));
      PushFrame(msg, k, NEW_ASM, FrameAt(msg, k));
      assert Reports(events)[0] == FrameAt(msg, k);
    } else {
      FramesDeliver(msg, k);
      DeliveryLeaves(msg, k, NEW_ASM, late, more);
      ReportsThen(late, more);
      Resume(msg, k, NEW_ASM, Reports(late));
      FeedStops(NEW_ASM, Reports(late), Reports(more));
      assert NEW_ASM.buf + msg[Carried(msg, k)..] == msg[Carried(msg, k)..];
    }
  }

  function AsResponse(buf: seq<byte>): Response {
    match SplitResponse(buf) case None => Err(EmptyResponse) case Some(r) => Ok(r)
  }

  lemma {:induction false} FramesAreReports(msg: seq<byte>, k: nat)
    requires k < FrameCount(msg)
    ensures EndsWithReport(Frames(msg, k, FrameCount(msg)))
    decreases FrameCount(msg) - k
  {
    hide FrameAt, FrameCount, Frames;
    var n := FrameCount(msg);
    var late, rest := Frames(msg, k, n), Frames(msg, k + 1, n);
    FirstFrame(msg, k, n, []);
    assert late + [] == late && rest + [] == rest;
    assert late == [late[0]] + rest;
    if k + 1 < n {
      FramesAreReports(msg, k + 1);
    } else {
      NoFrames(msg, n, []);
      assert rest == [];
    }
  }

  lemma {:induction false} FramesDeliver(msg: seq<byte>, k: nat)
    requires k < FrameCount(msg)
    ensures var late := Frames(msg, k, FrameCount(msg));
            EndsWithReport(late) && Delivery(msg, k, 0, Reports(late))
    decreases FrameCount(msg) - k
  {
    hide FrameAt, FrameCount, PushStep, IsBusy, Frames, EndsWithReport;
    var n := FrameCount(msg);
    var late, rest := Frames(msg, k, n), Frames(msg, k + 1, n);
    FramesAreReports(msg, k);
    FirstFrame(msg, k, n, []);
    assert late + [] == late && rest + [] == rest;
    assert Reports(late)[0] == FrameAt(msg, k) && Reports(late)[1..] == Reports(rest);
    PushFrame(msg, k, NEW_ASM, FrameAt(msg, k));
    if k + 1 < n {
      FramesDeliver(msg, k + 1);
    } else {
      NoFrames(msg, n, []);
      assert Reports([]) == [];
    }
  }

  /** The first index from `k` on that an empty assembler takes for 0, or the end of the message. */
  function Mistaken(msg: seq<byte>, k: nat): (e: nat)
    requires k <= FrameCount(msg)
    ensures k <= e <= FrameCount(msg)
    decreases FrameCount(msg) - k
  {
    if k == FrameCount(msg) || k % 16 == 0 then k else Mistaken(msg, k + 1)
  }

  /**
   A deadline inside an answer: each of the following transmits fails on one late frame, until
   either none is left or one whose index is a multiple of 16 comes first; there the next
   transmit returns the rest of the old answer as its own. Then the late frames are gone.
   */
  lemma {:induction false} LateTail(msg: seq<byte>, k: nat, more: seq<ReadEvent>)
    requires k <= FrameCount(msg)
    ensures var n := FrameCount(msg); var events := Frames(msg, k, n) + more; var e := Mistaken(msg, k);
            k <= e <= n && (e < n ==> e % 16 == 0) && (forall i :: k <= i < e ==> i % 16 != 0) &&
            (forall i :: k <= i < e ==> ResponseAt(events, i - k) == Err(Frame(OutOfSequence(0, i % 16)))) &&
            (e == n ==> After(events, e - k) == more) &&
            (e < n ==> ResponseAt(events, e - k) == AsResponse(msg[Carried(msg, e)..]) &&
                       After(events, e - k + 1) == more)
    decreases FrameCount(msg) - k
  {
    hide FrameCount, Carried, Received, Left, AsResponse, Frames, ResponseAt;
    var n := FrameCount(msg);
    var events := Frames(msg, k, n) + more;
    var e := Mistaken(msg, k);
    if k == n {
      NoFrames(msg, n, more);
    } else {
      LateFrames(msg, k, more);
      ResponseFirst(events, 0);
      ResponseFirst(events, e - k + 1);
      if k % 16 != 0 {
        LateTail(msg, k + 1, more);
        ResponseFirst(events, e - k);
        forall i | k <= i < e
          ensures i % 16 != 0 && ResponseAt(events, i - k) == Err(Frame(OutOfSequence(0, i % 16)))
        {
          ResponseFirst(events, i - k);
        }
      }
    }
  }

  // -------------------------------------------------------------- any stream

  /** A report that carries the last frame of a message. */
  predicate EndsMessage(raw: seq<byte>) {
    var p := Payload(raw);
    !IsBusy(raw) && |p| >= PAYLOAD_HEADER && p[0] == MAGIC && !HasMore(HighNibble(p[1]))
  }

  function LastFrames(events: seq<ReadEvent>): nat {
    if events == [] then 0
    else (if events[0].Report? && EndsMessage(events[0].bytes) then 1 else 0) + LastFrames(events[1..])
  }

  /** How many last frames the first `n` transmits have read. */
  function Used(events: seq<ReadEvent>, n: nat): int {
    LastFrames(events) - LastFrames(After(events, n))
  }

  /**
   The frames of `msgs`, from frame `k` of the first message on, in order; with busy reports,
   empty reads, read failures and deadlines anywhere, and ending anywhere.
   */
  ghost predicate InOrder(msgs: seq<seq<byte>>, k: nat, events: seq<ReadEvent>)
    decreases |events|
  {
    (if msgs == [] then k == 0 else k < FrameCount(msgs[0])) &&
    (events == [] ||
     if !events[0].Report? || events[0].bytes == [] || IsBusy(events[0].bytes) then InOrder(msgs, k, events[1..])
     else
       msgs != [] && IsReportOf(events[0].bytes, FrameAt(msgs[0], k)) &&
       if k + 1 < FrameCount(msgs[0]) then InOrder(msgs, k + 1, events[1..]) else InOrder(msgs[1..], 0, events[1..]))
  }

  lemma LastFrameEnds(msg: seq<byte>, k: nat, raw: seq<byte>)
    requires k < FrameCount(msg) && IsReportOf(raw, FrameAt(msg, k))
    ensures EndsMessage(raw) <==> k + 1 == FrameCount(msg)
    ensures raw != []
  {
    hide FrameCount;
    var f := FrameAt(msg, k);
    assert Payload(raw) == f[1..];
  }

  lemma NothingEnds(a: Asm, raw: seq<byte>)
    ensures EndsMessage(raw) ==> PushStep(a, raw).1.Err? || PushStep(a, raw).1.value.Done?
    ensures PushStep(a, raw).1.Ok? && PushStep(a, raw).1.value.Done? ==> EndsMessage(raw)
    ensures IsBusy(raw) ==> !EndsMessage(raw)
  {
    hide HighNibble, HasMore;
  }

  /** Whatever arrives, a transmit reads at most one last frame, and exactly one if it completes. */
  lemma {:induction false} OneLastFrame(a: Asm, events: seq<ReadEvent>)
    ensures LastFrames(events) - 1 <= LastFrames(Left(a, events)) <= LastFrames(events)
    ensures Feed(a, Reports(events)).Complete? ==> LastFrames(Left(a, events)) == LastFrames(events) - 1
    decreases |events|
  {
    hide PushStep, EndsMessage;
    if events != [] && events[0].Report? {
      var raw := events[0].bytes;
      NothingEnds(a, raw);
      if raw == [] {
        assert !EndsMessage(raw) by { EmptyEndsNothing(); }
        OneLastFrame(a, events[1..]);
      } else {
        var (b, r) := PushStep(a, raw);
        assert Reports(events)[1..] == Reports(events[1..]);
        if r.Ok? && !r.value.Done? {
          OneLastFrame(b, events[1..]);
        }
      }
    }
  }

  lemma EmptyEndsNothing()
    ensures !EndsMessage([])
  {
  }

  /** The assembler has read the frames `from..k` of a message, and these only. */
  ghost predicate Holding(msg: seq<byte>, from: nat, k: nat, a: Asm) {
    && from <= k < FrameCount(msg) && a.received % 16 == (k - from) % 16 && (k > from ==> from % 16 == 0)
    && a.buf == msg[Carried(msg, from)..Carried(msg, k)]
  }

  lemma NewHolds(msg: seq<byte>, k: nat)
    requires k < FrameCount(msg)
    ensures Holding(msg, k, k, NEW_ASM)
  {
  }

  lemma HoldingOne(msg: seq<byte>, from: nat, k: nat, a: Asm, raw: seq<byte>)
    requires Holding(msg, from, k, a) && IsReportOf(raw, FrameAt(msg, k))
    ensures PushStep(a, raw).1 ==
            if from % 16 != 0 then Err(OutOfSequence(a.received % 16, k % 16))
            else Ok(if k + 1 == FrameCount(msg) then Done else NeedMore)
    ensures var b := PushStep(a, raw).0;
            from % 16 == 0 ==>
              if k + 1 == FrameCount(msg) then b.buf == msg[Carried(msg, from)..] else Holding(msg, from, k + 1, b)
  {
    hide FrameAt, FrameCount, Carried, PushStep, IsReportOf;
    PushFrame(msg, k, a, raw);
    SameSlot(k - from, from);
    ChunksConcatenate(msg, k);
    CarriedGrows(msg, from, k);
    var b := PushStep(a, raw).0;
    if from % 16 == 0 {
      CountWraps(a.received, k - from);
      assert msg[Carried(msg, from)..Carried(msg, k)] + msg[Carried(msg, k)..Carried(msg, k + 1)] ==
             msg[Carried(msg, from)..Carried(msg, k + 1)];
    }
  }

  lemma CarriedGrows(msg: seq<byte>, i: nat, k: nat)
    requires i <= k
    ensures Carried(msg, i) <= Carried(msg, k) <= |msg|
  {
  }

  /** What a transmit makes of the stream: how many last frames it reads, and where that leaves it. */
  ghost predicate Advances(msgs: seq<seq<byte>>, from: nat, k: nat, a: Asm, events: seq<ReadEvent>, k': nat) {
    var left, end := Left(a, events), Feed(a, Reports(events));
    if LastFrames(left) == LastFrames(events) then InOrder(msgs, k', left) && !end.Complete?
    else
      && msgs != [] && k' == 0 && InOrder(msgs[1..], 0, left)
      && (end.Complete? <==> from % 16 == 0)
      && (end.Complete? ==> end.asm.buf == msgs[0][Carried(msgs[0], from)..])
  }

  lemma {:induction false} ReceiveInOrder(msgs: seq<seq<byte>>, from: nat, k: nat, a: Asm, events: seq<ReadEvent>)
    returns (k': nat)
    requires InOrder(msgs, k, events) && (msgs != [] ==> Holding(msgs[0], from, k, a))
    ensures Advances(msgs, from, k, a, events, k')
    decreases |events|
  {
    hide FrameAt, FrameCount, Carried, PushStep, IsBusy, IsReportOf, EndsMessage, Holding;
    k' := k;
    if events != [] && events[0].Report? {
      var raw, rest := events[0].bytes, events[1..];
      if raw == [] {
        EmptyEndsNothing();
        k' := ReceiveInOrder(msgs, from, k, a, rest);
      } else {
        var (b, r) := PushStep(a, raw);
        assert Reports(events)[1..] == Reports(rest);
        NothingEnds(a, raw);
        if IsBusy(raw) {
          PushBusy(a, raw);
          if r.Ok? {
            if msgs != [] {
              HoldingBusy(msgs[0], from, k, a, b);
            }
            k' := ReceiveInOrder(msgs, from, k, b, rest);
          }
        } else {
          LastFrameEnds(msgs[0], k, raw);
          HoldingOne(msgs[0], from, k, a, raw);
          if k + 1 == FrameCount(msgs[0]) {
            k' := 0;
          } else if from % 16 == 0 {
            k' := ReceiveInOrder(msgs, from, k + 1, b, rest);
          } else {
            k' := k + 1;
          }
        }
      }
    }
  }

  lemma HoldingBusy(msg: seq<byte>, from: nat, k: nat, a: Asm, b: Asm)
    requires Holding(msg, from, k, a) && b.buf == a.buf && b.received == a.received
    ensures Holding(msg, from, k, b)
  {
    hide FrameCount, Carried;
  }

  lemma {:induction false} AfterNext(events: seq<ReadEvent>, n: nat)
    ensures After(events, n + 1) == Left(NEW_ASM, After(events, n))
    decreases n
  {
    hide Left;
    if n > 0 {
      AfterNext(Left(NEW_ASM, events), n - 1);
    }
  }

  /** Frame `k` of message number `u` is the next to come. */
  ghost predicate Next(msgs: seq<seq<byte>>, u: int, k: nat, events: seq<ReadEvent>) {
    0 <= u <= |msgs| && InOrder(msgs[u..], k, events)
  }

  lemma OneTransmit(msgs: seq<seq<byte>>, u: int, k: nat, events: seq<ReadEvent>) returns (k': nat)
    requires Next(msgs, u, k, events)
    ensures var left := Left(NEW_ASM, events); var d := LastFrames(events) - LastFrames(left);
            0 <= d <= 1 && Next(msgs, u + d, k', left) &&
            (Completes(Received(events)) ==> d == 1) &&
            (d == 1 ==>
               k' == 0 && u < |msgs| && k < FrameCount(msgs[u]) &&
               (Completes(Received(events)) <==> k % 16 == 0) &&
               (Completes(Received(events)) ==> Received(events) == AsResponse(msgs[u][Carried(msgs[u], k)..])))
  {
    hide Left, Feed, Reports, FrameCount, Carried, StopError, SplitResponse, LastFrames;
    OneLastFrame(NEW_ASM, events);
    CompletesIff(events);
    var rest := msgs[u..];
    assert rest != [] ==> rest[1..] == msgs[u + 1..] && rest[0] == msgs[u];
    if rest != [] {
      NewHolds(rest[0], k);
    }
    k' := ReceiveInOrder(rest, k, k, NEW_ASM, events);
  }

  /** The receive loop ended with the last frame of an answer. */
  predicate Completes(r: Response) {
    r.Ok? || r == Err(EmptyResponse)
  }

  lemma CompletesIff(events: seq<ReadEvent>)
    ensures Completes(Received(events)) <==> Feed(NEW_ASM, Reports(events)).Complete?
    ensures Completes(Received(events)) ==> Received(events) == AsResponse(Feed(NEW_ASM, Reports(events)).asm.buf)
  {
    hide Feed, Reports, StopError, SplitResponse;
    StopErrorIs(events);
  }

  lemma {:induction false} StopErrorIs(events: seq<ReadEvent>)
    ensures StopError(events) != EmptyResponse
  {
    if !Stops(events) {
      StopErrorIs(events[1..]);
    }
  }

  /**
   The answers of a device that answers every command, in order: any stream of their frames.
   `Used` counts the answers that are over before transmit `n`.
   */
  ghost function Messages(answers: seq<(seq<byte>, u16)>): (msgs: seq<seq<byte>>)
    ensures |msgs| == |answers|
  {
    seq(|answers|, i requires 0 <= i < |answers| => answers[i].0 + U16Be(answers[i].1))
  }

  lemma WholeAnswer(answers: seq<(seq<byte>, u16)>, u: nat)
    requires u < |answers|
    ensures var msg := Messages(answers)[u];
            0 < FrameCount(msg) && AsResponse(msg[Carried(msg, 0)..]) == Ok(answers[u])
  {
    hide U16Be, FrameCount, Carried, SplitResponse;
    var msg := Messages(answers)[u];
    SomeFrame(msg);
    ChunksConcatenate(msg, 0);
    assert msg[Carried(msg, 0)..] == msg;
    SplitIffAppended(msg, answers[u].0, answers[u].1);
  }

  /** Where `n` transmits leave the stream. */
  lemma {:induction false} RunInOrder(msgs: seq<seq<byte>>, events: seq<ReadEvent>, n: nat) returns (k: nat)
    requires InOrder(msgs, 0, events)
    ensures Used(events, n) <= n && Next(msgs, Used(events, n), k, After(events, n))
    ensures Used(events, n) == n ==> k == 0
    decreases n
  {
    hide InOrder, Left, LastFrames, FrameCount, Carried, Received;
    if n == 0 {
      k := 0;
      assert msgs[0..] == msgs;
    } else {
      var before := RunInOrder(msgs, events, n - 1);
      AfterNext(events, n - 1);
      k := OneTransmit(msgs, Used(events, n - 1), before, After(events, n - 1));
    }
  }

  /**
   Any stream of the answers' frames in order, with busy reports, empty reads, failures and
   deadlines anywhere: a transmit that completes returns an answer from some frame on, never
   one after its own, and its own only whole. Its own is the next exactly when all transmits
   before it returned theirs.
   */
  lemma {:induction false} AnswersBelong(answers: seq<(seq<byte>, u16)>, events: seq<ReadEvent>, n: nat)
    requires InOrder(Messages(answers), 0, events)
    ensures var msgs, u, r := Messages(answers), Used(events, n), ResponseAt(events, n);
            0 <= u <= n &&
            (Completes(r) ==>
               u < |answers| && if u == n then r == Ok(answers[n]) else IsTail(msgs[u], r)) &&
            (u == n <==> forall j :: 0 <= j < n ==> Completes(ResponseAt(events, j))) &&
            (u == n ==> n <= |answers| && forall j :: 0 <= j < n ==> ResponseAt(events, j) == Ok(answers[j]))
    decreases n
  {
    hide InOrder, Left, LastFrames, FrameCount, Carried, Received, Messages, AsResponse, Completes;
    var msgs, u := Messages(answers), Used(events, n);
    var k := RunInOrder(msgs, events, n);
    var _ := OneTransmit(msgs, u, k, After(events, n));
    if Completes(ResponseAt(events, n)) && u == n {
      WholeAnswer(answers, n);
    }
    if n > 0 {
      AnswersBelong(answers, events, n - 1);
      AfterNext(events, n - 1);
      var before := RunInOrder(msgs, events, n - 1);
      var _ := OneTransmit(msgs, Used(events, n - 1), before, After(events, n - 1));
    }
  }

  /** `r` is what is returned for the message from some frame on whose index is a multiple of 16. */
  ghost predicate IsTail(msg: seq<byte>, r: Response) {
    exists f: nat :: f < FrameCount(msg) && f % 16 == 0 && r == AsResponse(msg[Carried(msg, f)..])
  }

  /** No earlier answer, nor the rest of one, is taken for this one. */
  ghost predicate NoLookalike(answers: seq<(seq<byte>, u16)>, n: nat)
    requires n < |answers|
  {
    forall u: nat :: u < n ==> !IsTail(Messages(answers)[u], Ok(answers[n]))
  }

  /**
   A transmit returns the answer to its own command exactly when it and all transmits before it
   returned something. Once one has not, every later one is out of step.
   */
  lemma OwnAnswerIff(answers: seq<(seq<byte>, u16)>, events: seq<ReadEvent>, n: nat)
    requires InOrder(Messages(answers), 0, events) && n < |answers| && NoLookalike(answers, n)
    ensures ResponseAt(events, n) == Ok(answers[n]) <==>
            forall j :: 0 <= j <= n ==> ResponseAt(events, j).Ok?
  {
    hide InOrder, Messages, ResponseAt, Used, IsTail;
    AnswersBelong(answers, events, n);
  }

  // ------------------------------------------------ turns are such a stream

  lemma {:induction false} DeliveryInOrder(msgs: seq<seq<byte>>, k: nat, run: u32, events: seq<ReadEvent>, more: seq<ReadEvent>)
    requires msgs != [] && k < FrameCount(msgs[0]) && EndsWithReport(events)
    requires Delivery(msgs[0], k, run, Reports(events)) && InOrder(msgs[1..], 0, more)
    ensures InOrder(msgs, k, events + more)
    decreases |events|
  {
    hide FrameAt, FrameCount, Carried, IsBusy, IsReportOf;
    var raw, rest := events[0].bytes, events[1..];
    assert (events + more)[1..] == rest + more;
    assert Reports([]) == [];
    if raw == [] {
      DeliveryInOrder(msgs, k, run, rest, more);
    } else {
      assert Reports(events)[1..] == Reports(rest);
      if IsBusy(raw) {
        DeliveryInOrder(msgs, k, run + 1, rest, more);
      } else if k + 1 < FrameCount(msgs[0]) {
        DeliveryInOrder(msgs, k + 1, 0, rest, more);
      } else {
        if rest != [] {
          LastIsReported(rest);
        }
        assert rest + more == more;
      }
    }
  }

  lemma {:induction false} WaitingInOrder(msgs: seq<seq<byte>>, events: seq<ReadEvent>, more: seq<ReadEvent>)
    requires OnlyWaiting(events) && InOrder(msgs, 0, more)
    ensures InOrder(msgs, 0, events + more)
    decreases |events|
  {
    hide FrameAt, FrameCount, IsBusy, IsReportOf;
    var rest := events[1..];
    assert (events + more)[1..] == rest + more;
    SomeFrames(msgs);
    if events[0].Report? {
      WaitingInOrder(msgs, rest, more);
    } else {
      assert rest + more == more;
    }
  }

  lemma SomeFrames(msgs: seq<seq<byte>>)
    ensures msgs != [] ==> FrameCount(msgs[0]) > 0
  {
  }

  /** Well-formed turns are a stream of their answers in order. */
  lemma {:induction false} StreamInOrder(turns: seq<Turn>)
    requires AllWellFormed(turns)
    ensures InOrder(Messages(AnswersIn(turns)), 0, Stream(turns))
  {
    hide FrameCount, Delivery, Reports, IsBusy, U16Be;
    if turns != [] {
      var rest := turns[1..];
      WellFormedRest(turns);
      StreamInOrder(rest);
      var msgs := Messages(AnswersIn(turns));
      match turns[0] {
        case Answers(data, sw, events) =>
          AnswersFirst(turns);
          assert msgs[0] == data + U16Be(sw) && msgs[1..] == Messages(AnswersIn(rest));
          SomeFrame(msgs[0]);
          DeliveryInOrder(msgs, 0, 0, events, Stream(rest));
        case Expires(events) =>
          AnswersFirst(turns);
          WaitingInOrder(msgs, events, Stream(rest));
      }
    }
  }
}
