/**
 Sessions over the two transports: when the answers that a session gets are the token's
 answers to its own commands.
 */
module Links {
  import opened Bytes
  import opened HidFrame
  import opened Proto
  import opened Entry
  import opened Errors
  import opened Session
  import opened Device
  import Hid
  import HidRuns
  import PcSc
  import Runs

  type Answer = (seq<byte>, u16)

  /** The commands meet their fates at a conforming token, one after the other. */
  ghost predicate Served(card: Card, token: Token, commands: seq<seq<byte>>, fates: seq<Fate>)
    requires SoundCard(card)
    decreases |commands|
  {
    ValidStore(token.store) && ValidStore(token.pending) && |commands| == |fates| &&
    (commands == [] ||
     ((fates[0].Some? ==> Allowed(card, token, RequestOf(card, commands[0]), fates[0].value.0, fates[0].value.1)) &&
      Served(card, Did(card, token, commands[0], fates[0]), commands[1..], fates[1..])))
  }

  function Commands(log: seq<Exchange>): (commands: seq<seq<byte>>)
    ensures |commands| == |log|
  {
    seq(|log|, i requires 0 <= i < |log| => log[i].apdu)
  }

  /** The fates of `n` commands of which the token had the first and answered them with `answers`. */
  function Given(answers: seq<Answer>, n: nat): (fates: seq<Fate>)
    ensures |fates| == n
  {
    seq(n, i requires 0 <= i < n => if i < |answers| then Some(answers[i]) else None)
  }

  /** Every exchange carries what became of its own command, or an error of the transport. */
  ghost predicate AllCarried(log: seq<Exchange>, fates: seq<Fate>) {
    |log| == |fates| && forall k :: 0 <= k < |log| ==> Carries(log[k].reply, fates[k])
  }

  /** A log conforms exactly when its commands are served and every exchange carries its own fate. */
  lemma {:induction false} ServedConforms(card: Card, token: Token, log: seq<Exchange>, fates: seq<Fate>)
    requires SoundCard(card)
    ensures Conforms(card, token, log, fates) <==> Served(card, token, Commands(log), fates) && AllCarried(log, fates)
    decreases |log|
  {
    hide SoundCard, RequestOf, Allowed, Did, ValidStore, Carries;
    if log != [] && |log| == |fates| {
      assert Commands(log)[1..] == Commands(log[1..]);
      ServedConforms(card, Did(card, token, log[0].apdu, fates[0]), log[1..], fates[1..]);
      CarriedFirst(log, fates);
    }
  }

  lemma CarriedFirst(log: seq<Exchange>, fates: seq<Fate>)
    requires log != [] && |log| == |fates|
    ensures AllCarried(log, fates) <==> Carries(log[0].reply, fates[0]) && AllCarried(log[1..], fates[1..])
  {
    hide Carries;
    if Carries(log[0].reply, fates[0]) && AllCarried(log[1..], fates[1..]) {
      forall k | 0 <= k < |log|
        ensures Carries(log[k].reply, fates[k])
      {
        assert k > 0 ==> Carries(log[1..][k - 1].reply, fates[1..][k - 1]);
      }
    }
    if AllCarried(log, fates) {
      forall k | 0 <= k < |log[1..]|
        ensures Carries(log[1..][k].reply, fates[1..][k])
      {
        assert Carries(log[k + 1].reply, fates[k + 1]);
      }
    }
  }

  // -------------------------------------------------------------------- HID

  /** The command a device has when it reassembles the reports the host writes. */
  function Arrived(apdu: seq<byte>): seq<byte> {
    match Feed(NEW_ASM, SendFrames(apdu))
    case Complete(a) => a.buf
    case _ => []
  }

  function ArrivedAll(log: seq<Exchange>): (commands: seq<seq<byte>>)
    ensures |commands| == |log|
  {
    seq(|log|, i requires 0 <= i < |log| => Arrived(log[i].apdu))
  }

  lemma CommandsArrive(log: seq<Exchange>)
    ensures ArrivedAll(log) == Commands(log)
  {
    hide Feed, SendFrames;
    forall i | 0 <= i < |log|
      ensures Arrived(log[i].apdu) == log[i].apdu
    {
      SentIsDelivery(log[i].apdu, 0);
      assert SendFrames(log[i].apdu)[0..] == SendFrames(log[i].apdu);
      FramingRoundTrip(log[i].apdu, SendFrames(log[i].apdu));
    }
  }

  /** Of a command whose writing fails the device has no more than the beginning, and it waits for the rest. */
  lemma PartNeverArrives(apdu: seq<byte>, n: nat)
    requires n < FrameCount(apdu)
    ensures |SendFrames(apdu)| == FrameCount(apdu) && Feed(NEW_ASM, SendFrames(apdu)[..n]).Reading?
  {
    hide Feed, FrameAt, FrameCount;
    SentIsDelivery(apdu, 0);
    assert SendFrames(apdu)[0..] == SendFrames(apdu);
    FramingRoundTrip(apdu, SendFrames(apdu));
  }

  /**
   The exchanges of transmits made one after the other, while the device's reports are `events`
   and it takes `writable` reports before writing fails.
   */
  ghost predicate OverHid(events: seq<Hid.ReadEvent>, writable: nat, log: seq<Exchange>)
    decreases |log|
  {
    log == [] ||
    var n := FrameCount(log[0].apdu);
    if n <= writable then
      log[0].reply == Hid.Received(events) && OverHid(Hid.Left(NEW_ASM, events), writable - n, log[1..])
    else log[0].reply == Err(Transport) && OverHid(events, 0, log[1..])
  }

  /** How many of the commands are written in full. */
  function Sent(writable: nat, log: seq<Exchange>): (n: nat)
    ensures n <= |log|
    decreases |log|
  {
    if log == [] || FrameCount(log[0].apdu) > writable then 0
    else 1 + Sent(writable - FrameCount(log[0].apdu), log[1..])
  }

  lemma {:induction false} RepliesOverHid(events: seq<Hid.ReadEvent>, writable: nat, log: seq<Exchange>, k: nat)
    requires OverHid(events, writable, log) && k < |log|
    ensures log[k].reply == if k < Sent(writable, log) then HidRuns.ResponseAt(events, k) else Err(Transport)
    decreases |log|
  {
    hide Hid.Received, Hid.Left, FrameCount;
    HidRuns.SomeFrame(log[0].apdu);
    HidRuns.ResponseFirst(events, k);
    if k > 0 {
      var n := FrameCount(log[0].apdu);
      if n <= writable {
        RepliesOverHid(Hid.Left(NEW_ASM, events), writable - n, log[1..], k - 1);
      } else {
        RepliesOverHid(events, 0, log[1..], k - 1);
        NothingSent(log[1..]);
      }
    }
  }

  lemma NothingSent(log: seq<Exchange>)
    ensures Sent(0, log) == 0
  {
    if log != [] {
      HidRuns.SomeFrame(log[0].apdu);
    }
  }

  /** No exchange returns an answer after one that did not. */
  ghost predicate InStep(log: seq<Exchange>) {
    forall j, k :: 0 <= j < k < |log| && log[k].reply.Ok? ==> log[j].reply.Ok?
  }

  /** A token on HID has the commands that are written and its answers come in order, whenever they come. */
  ghost predicate HidToken(card: Card, token: Token, writable: nat, log: seq<Exchange>, answers: seq<Answer>,
                           events: seq<Hid.ReadEvent>)
    requires SoundCard(card)
  {
    |answers| == Sent(writable, log) && Served(card, token, ArrivedAll(log), Given(answers, |log|)) &&
    OverHid(events, writable, log) && HidRuns.InOrder(HidRuns.Messages(answers), 0, events)
  }

  lemma HidServed(card: Card, token: Token, writable: nat, log: seq<Exchange>, answers: seq<Answer>, events: seq<Hid.ReadEvent>)
    requires SoundCard(card) && HidToken(card, token, writable, log, answers, events)
    ensures Conforms(card, token, log, Given(answers, |log|)) <==> AllCarried(log, Given(answers, |log|))
  {
    hide SoundCard, Served, ArrivedAll, Commands, OverHid, HidRuns.InOrder;
    CommandsArrive(log);
    ServedConforms(card, token, log, Given(answers, |log|));
  }

  /**
   A session over HID conforms as long as no transmit returns an answer after one that did not:
   so if none but the last expires, and if writing fails at any point.
   */
  lemma HidConforms(card: Card, token: Token, writable: nat, log: seq<Exchange>, answers: seq<Answer>,
                    events: seq<Hid.ReadEvent>)
    requires SoundCard(card) && HidToken(card, token, writable, log, answers, events) && InStep(log)
    ensures Conforms(card, token, log, Given(answers, |log|))
  {
    HidServed(card, token, writable, log, answers, events);
    var n := Sent(writable, log);
    hide SoundCard, Served, ArrivedAll, OverHid, Sent, HidRuns.InOrder, HidRuns.ResponseAt, HidRuns.Used;
    forall k | 0 <= k < |log|
      ensures Carries(log[k].reply, Given(answers, |log|)[k])
    {
      RepliesOverHid(events, writable, log, k);
      if k < n {
        ResponseError(events, k);
        if log[k].reply.Ok? {
          forall j | 0 <= j < k
            ensures HidRuns.ResponseAt(events, j).Ok?
          {
            RepliesOverHid(events, writable, log, j);
            assert log[j].reply.Ok?;
          }
          HidRuns.AnswersBelong(answers, events, k);
        }
      }
    }
  }

  /** And only as long, when no answer looks like an earlier one or the rest of one. */
  lemma HidConformsIff(card: Card, token: Token, writable: nat, log: seq<Exchange>, answers: seq<Answer>,
                       events: seq<Hid.ReadEvent>)
    requires SoundCard(card) && HidToken(card, token, writable, log, answers, events)
    requires forall n :: 0 <= n < |answers| ==> HidRuns.NoLookalike(answers, n)
    ensures Conforms(card, token, log, Given(answers, |log|)) <==> InStep(log)
  {
    HidServed(card, token, writable, log, answers, events);
    hide SoundCard, Served, ArrivedAll, OverHid, Sent, HidRuns.InOrder, HidRuns.ResponseAt, HidRuns.Used, HidRuns.NoLookalike;
    if InStep(log) {
      HidConforms(card, token, writable, log, answers, events);
    }
    if AllCarried(log, Given(answers, |log|)) {
      forall j, k | 0 <= j < k < |log| && log[k].reply.Ok?
        ensures log[j].reply.Ok?
      {
        RepliesOverHid(events, writable, log, k);
        RepliesOverHid(events, writable, log, j);
        assert Carries(log[k].reply, Given(answers, |log|)[k]);
        HidRuns.OwnAnswerIff(answers, events, k);
      }
    }
  }

  lemma ResponseError(events: seq<Hid.ReadEvent>, k: nat)
    ensures var r := HidRuns.ResponseAt(events, k); r.Err? ==> IsLinkError(r.error)
  {
    Hid.ReceivedError(HidRuns.After(events, k));
  }

  // ------------------------------------------------------------ runs of calls

  /** The exchanges of all calls, in order. */
  function Joined(evs: seq<Runs.Event>): seq<Exchange> {
    if evs == [] then [] else evs[0].log + Joined(evs[1..])
  }

  /** The fates of each call's commands. */
  ghost function PerCall(evs: seq<Runs.Event>, fates: seq<Fate>): seq<seq<Fate>>
    requires |fates| == |Joined(evs)|
  {
    if evs == [] then []
    else
      var n := |evs[0].log|;
      [fates[..n]] + PerCall(evs[1..], fates[n..])
  }

  lemma {:induction false} ConformsSplit(card: Card, token: Token, one: seq<Exchange>, two: seq<Exchange>, fates: seq<Fate>)
    requires SoundCard(card) && Conforms(card, token, one + two, fates)
    ensures |fates| == |one| + |two| && Conforms(card, token, one, fates[..|one|])
    ensures Conforms(card, After(card, token, one, fates[..|one|]), two, fates[|one|..])
    decreases |one|
  {
    hide SoundCard, Did, Allowed, RequestOf, Carries, ValidStore;
    var n := |one|;
    if one == [] {
      assert one + two == two && fates[0..] == fates && fates[..0] == [];
    } else {
      assert (one + two)[1..] == one[1..] + two;
      ConformsSplit(card, Did(card, token, one[0].apdu, fates[0]), one[1..], two, fates[1..]);
      assert fates[..n][1..] == fates[1..][..n - 1] && fates[1..][n - 1..] == fates[n..];
    }
  }

  lemma {:induction false} CallsConform(card: Card, token: Token, evs: seq<Runs.Event>, fates: seq<Fate>)
    requires SoundCard(card) && Conforms(card, token, Joined(evs), fates) && |fates| == |Joined(evs)|
    requires forall i :: 0 <= i < |evs| ==> Runs.Happened(card.p, evs[i])
    ensures Runs.Run(card, token, evs, PerCall(evs, fates))
    decreases |evs|
  {
    hide SoundCard, Conforms, After, Runs.Happened;
    if evs != [] {
      var n := |evs[0].log|;
      ConformsSplit(card, token, evs[0].log, Joined(evs[1..]), fates);
      CallsConform(card, After(card, token, evs[0].log, fates[..n]), evs[1..], fates[n..]);
    }
  }

  /**
   Over HID, however late the last answer and whatever cannot be written: as long as no
   transmit of a run of calls returns an answer after one that did not, each call takes the
   token's map to the next as its outcome says, and every listing and read is true of the map at
   its moment.
   */
  lemma HidRunRefinesMap(card: Card, token: Token, evs: seq<Runs.Event>, writable: nat, answers: seq<Answer>,
                         events: seq<Hid.ReadEvent>)
    requires SoundCard(card) && UniqueKeys(token.store)
    requires forall i :: 0 <= i < |evs| ==> Runs.Happened(card.p, evs[i])
    requires HidToken(card, token, writable, Joined(evs), answers, events) && InStep(Joined(evs))
    ensures var fates := PerCall(evs, Given(answers, |Joined(evs)|));
            Runs.Run(card, token, evs, fates) &&
            var maps := Runs.Maps(card, token, evs, fates);
            maps[0] == AsMap(token.store) &&
            forall i :: 0 <= i < |evs| ==>
              Runs.MayBecome(maps[i], evs[i], maps[i + 1]) && Runs.Truthful(card, maps[i], evs[i])
  {
    hide SoundCard, HidToken, Conforms, Joined, PerCall, InStep, Runs.Happened, Runs.Run, Runs.Truthful, Runs.Maps, AsMap,
         UniqueKeys, Runs.MayBecome;
    var fates := Given(answers, |Joined(evs)|);
    HidConforms(card, token, writable, Joined(evs), answers, events);
    CallsConform(card, token, evs, fates);
    Runs.RunRefinesMap(card, token, evs, PerCall(evs, fates));
  }

  /** If besides no change is in doubt, that map is the one the successful calls make. */
  lemma HidRunIsMap(card: Card, token: Token, evs: seq<Runs.Event>, writable: nat, answers: seq<Answer>,
                    events: seq<Hid.ReadEvent>)
    requires SoundCard(card) && UniqueKeys(token.store)
    requires forall i :: 0 <= i < |evs| ==> Runs.Happened(card.p, evs[i]) && !Runs.InDoubt(evs[i])
    requires HidToken(card, token, writable, Joined(evs), answers, events) && InStep(Joined(evs))
    ensures forall i :: 0 <= i < |evs| ==>
              Runs.Truthful(card, Runs.MapAfterAll(AsMap(token.store), evs[..i]), evs[i])
  {
    hide SoundCard, HidToken, Conforms, Joined, PerCall, InStep, Runs.Happened, Runs.Run, Runs.Truthful, Runs.MapAfterAll,
         Runs.Maps, AsMap, UniqueKeys, Runs.MayBecome, Runs.InDoubt;
    HidRunRefinesMap(card, token, evs, writable, answers, events);
    var fates := PerCall(evs, Given(answers, |Joined(evs)|));
    Runs.AnsweredRunIsMap(card, token, evs, fates);
    assert forall i :: 0 <= i < |evs| ==>
             Runs.Maps(card, token, evs, fates)[i] == Runs.MapAfterAll(AsMap(token.store), evs[..i]);
  }

  // ------------------------------------------------------- an expired transmit

  /** The events of a device whose first answer comes after the host has stopped waiting for it. */
  function Late(msg: seq<byte>): seq<Hid.ReadEvent> {
    [Hid.Deadline] + HidRuns.Frames(msg, 0, FrameCount(msg))
  }

  lemma {:induction false} FramesInOrder(msgs: seq<seq<byte>>, k: nat)
    requires msgs != [] && k < FrameCount(msgs[0])
    ensures HidRuns.InOrder(msgs, k, HidRuns.Frames(msgs[0], k, FrameCount(msgs[0])))
    decreases FrameCount(msgs[0]) - k
  {
    hide FrameAt, FrameCount, IsBusy, PushStep;
    var msg, n := msgs[0], FrameCount(msgs[0]);
    var events := HidRuns.Frames(msg, k, n);
    assert events + [] == events;
    assert HidRuns.Frames(msg, k + 1, n) + [] == HidRuns.Frames(msg, k + 1, n);
    HidRuns.FirstFrame(msg, k, n, []);
    PushFrame(msg, k, NEW_ASM, FrameAt(msg, k));
    if k + 1 < n {
      FramesInOrder(msgs, k + 1);
    } else {
      NoneInOrder(msgs[1..]);
      assert events[1..] == [];
    }
  }

  lemma NoneInOrder(msgs: seq<seq<byte>>)
    ensures HidRuns.InOrder(msgs, 0, [])
  {
  }

  lemma LateEvents(answers: seq<Answer>)
    requires answers != []
    ensures var events := Late(HidRuns.Messages(answers)[0]);
            HidRuns.InOrder(HidRuns.Messages(answers), 0, events) &&
            HidRuns.ResponseAt(events, 0) == Err(Applet(ButtonPressRequired)) &&
            HidRuns.ResponseAt(events, 1) == Ok(answers[0])
  {
    hide FrameAt, FrameCount, Hid.Reports, Feed, Delivery, HidRuns.Frames, SplitResponse, U16Be;
    var msgs := HidRuns.Messages(answers);
    var msg := msgs[0];
    var events, frames := Late(msg), HidRuns.Frames(msg, 0, FrameCount(msg));
    HidRuns.SomeFrame(msg);
    FramesInOrder(msgs, 0);
    assert events[1..] == frames;
    FrameLess(msg, frames);
    HidRuns.FramesDeliver(msg, 0);
    assert Hid.Reports(frames)[..|Hid.Reports(frames)|] == Hid.Reports(frames);
    Hid.AnswerIsReceived(answers[0].0, answers[0].1, frames, |Hid.Reports(frames)|);
  }

  /** A deadline at once gives the button timeout and leaves everything unread. */
  lemma FrameLess(msg: seq<byte>, more: seq<Hid.ReadEvent>)
    ensures var events := [Hid.Deadline] + more;
            HidRuns.ResponseAt(events, 0) == Err(Applet(ButtonPressRequired)) && HidRuns.After(events, 1) == more
  {
    HidRuns.SomeFrame(msg);
    HidRuns.DeadlineInside(msg, 0, more);
    assert HidRuns.Frames(msg, 0, 0) + ([Hid.Deadline] + more) == [Hid.Deadline] + more;
    HidRuns.ResponseFirst([Hid.Deadline] + more, 0);
    HidRuns.ResponseFirst([Hid.Deadline] + more, 1);
  }

  /**
   After an expired transmit the outcome of a call can be untrue: an enumeration expires, the
   token refuses the erase that follows and keeps its records, and the late page is taken for
   the acknowledgement, so the erase is reported as done.
   */
  lemma ExpiredListingMisleads(card: Card, token: Token, timestamp: u64, cut: nat)
    requires SoundCard(card) && ValidStore(token.store) && ValidStore(token.pending) && 0 < cut <= |token.store|
    ensures var page := Runs.PageReply(card, token.store, timestamp, cut);
            page.Ok? &&
            var answers: seq<Answer> := [page.value, ([], SW_BUTTON_TIMEOUT)];
            var listing := [Exchange(EnumAllApdu(timestamp), false, Err(Applet(ButtonPressRequired)))];
            var erase := [Exchange(ERASE_ALL, true, page)];
            var writable := FrameCount(EnumAllApdu(timestamp)) + FrameCount(ERASE_ALL);
            HidToken(card, token, writable, listing + erase, answers, Late(HidRuns.Messages(answers)[0])) &&
            Enumerated(timestamp, listing, Err(Applet(ButtonPressRequired))) && Erased(erase, Ok(())) &&
            After(card, token, listing + erase, Given(answers, 2)).store == token.store != []
  {
    hide RequestOf, SoundCard, Runs.PageReply, EnumAllApdu, ValidStore, IsPage, HidRuns.InOrder, Late, HidRuns.Messages,
         HidRuns.ResponseAt, Rest, ReadPage, FrameCount, OverHid, Sent, Served, Given, After, ArrivedAll, Commands, Enumerated,
         Erased;
    var page := Runs.PageReply(card, token.store, timestamp, cut);
    Runs.PageReplyReads(card, token.store, timestamp, cut);
    Runs.ValidRest(token.store, cut);
    var answers: seq<Answer> := [page.value, ([], SW_BUTTON_TIMEOUT)];
    var listing := Exchange(EnumAllApdu(timestamp), false, Err(Applet(ButtonPressRequired)));
    var erase := Exchange(ERASE_ALL, true, page);
    LateEvents(answers);
    RequestListAll(card, timestamp);
    RequestErase(card, ERASE_ALL);
    CommandsArrive([listing] + [erase]);
    ServedTwice(card, token, timestamp, page, listing, erase, cut);
    TwoOverHid(Late(HidRuns.Messages(answers)[0]), listing, erase);
    Outcomes(timestamp, listing, erase);
  }

  lemma Outcomes(timestamp: u64, listing: Exchange, erase: Exchange)
    requires listing == Exchange(EnumAllApdu(timestamp), false, Err(Applet(ButtonPressRequired)))
    requires erase.apdu == ERASE_ALL && erase.detectButtonWait && erase.reply.Ok? && erase.reply.value.1 == SW_OK
    ensures Enumerated(timestamp, [listing], Err(Applet(ButtonPressRequired))) && Erased([erase], Ok(()))
  {
    hide EnumAllApdu, ReadPage;
  }

  lemma TwoOverHid(events: seq<Hid.ReadEvent>, one: Exchange, two: Exchange)
    requires one.reply == HidRuns.ResponseAt(events, 0) && two.reply == HidRuns.ResponseAt(events, 1)
    ensures var writable := FrameCount(one.apdu) + FrameCount(two.apdu);
            OverHid(events, writable, [one] + [two]) && Sent(writable, [one] + [two]) == 2
  {
    hide FrameCount, Hid.Left, Hid.Received;
    HidRuns.ResponseFirst(events, 1);
    HidRuns.ResponseFirst(Hid.Left(NEW_ASM, events), 0);
    assert ([one] + [two])[1..] == [two] && [two][1..] == [];
    assert OverHid(Hid.Left(NEW_ASM, events), FrameCount(two.apdu), [two]);
    assert Sent(FrameCount(two.apdu), [two]) == 1 by { assert Sent(0, []) == 0; }
  }

  lemma ServedTwice(card: Card, token: Token, timestamp: u64, page: Response, listing: Exchange, erase: Exchange, cut: nat)
    requires SoundCard(card) && ValidStore(token.store) && ValidStore(token.pending) && cut <= |token.store|
    requires page.Ok? && page.value.1 == SW_OK && IsPage(card, token.store, timestamp, page.value.0, cut)
    requires Rest(token.store, page.value.0) == token.store[cut..] && ValidStore(token.store[cut..])
    requires RequestOf(card, listing.apdu) == ListAll(timestamp) && RequestOf(card, erase.apdu) == EraseEverything
    ensures var answers: seq<Answer> := [page.value, ([], SW_BUTTON_TIMEOUT)];
            Served(card, token, Commands([listing] + [erase]), Given(answers, 2)) &&
            After(card, token, [listing] + [erase], Given(answers, 2)).store == token.store
  {
    hide RequestOf, SoundCard, IsPage, Rest, ValidStore;
    var answers: seq<Answer> := [page.value, ([], SW_BUTTON_TIMEOUT)];
    var next := token.(pending := token.store[cut..]);
    var fates: seq<Fate> := Given(answers, 2);
    assert Commands([listing] + [erase]) == [listing.apdu, erase.apdu];
    assert [listing.apdu, erase.apdu][1..] == [erase.apdu] && [erase.apdu][1..] == [];
    assert fates == [Some(answers[0]), Some(answers[1])] && fates[1..] == [Some(answers[1])] && |fates[1..][1..]| == 0;
    assert Served(card, next, [], []);
    assert Served(card, next, [erase.apdu], [Some(answers[1])]);
    assert ([listing] + [erase])[1..] == [erase];
    assert After(card, next, [erase], [Some(answers[1])]) == next;
  }

  // ------------------------------------------------------------------- PC/SC

  /** What the card answers while one command is transmitted: it gives the answer, or the transmit fails. */
  ghost predicate Yields(block: seq<PcSc.CardReply>, answer: Answer) {
    var run := PcSc.Reassemble(block, 0, [], 0);
    run.sends == |block| && (run.result.Ok? ==> run.result == Ok(answer))
  }

  function Blocks(blocks: seq<seq<PcSc.CardReply>>): seq<PcSc.CardReply> {
    if blocks == [] then [] else blocks[0] + Blocks(blocks[1..])
  }

  /** The exchanges of transmits made one after the other while the card gives `replies`. */
  ghost predicate OverPcSc(replies: seq<PcSc.CardReply>, log: seq<Exchange>)
    decreases |log|
  {
    log == [] ||
    var run := PcSc.Reassemble(replies, 0, [], 0);
    log[0].reply == run.result && OverPcSc(PcSc.Remaining(replies, run.sends), log[1..])
  }

  /** What goes over the wire: for each transmit the commands it sends. */
  function Wire(replies: seq<PcSc.CardReply>, log: seq<Exchange>): (wire: seq<seq<seq<byte>>>)
    ensures |wire| == |log|
    decreases |log|
  {
    if log == [] then []
    else
      var n := PcSc.Reassemble(replies, 0, [], 0).sends;
      [PcSc.Commands(log[0].apdu, replies, n)] + Wire(PcSc.Remaining(replies, n), log[1..])
  }

  /** The commands the card has: of each transmit the first, as the others only ask for the rest of its answer. */
  function CardHas(wire: seq<seq<seq<byte>>>): (commands: seq<seq<byte>>)
    ensures |commands| == |wire|
  {
    seq(|wire|, i requires 0 <= i < |wire| => if wire[i] == [] then [] else wire[i][0])
  }

  /** The card has the commands of the log because they were sent, and no other. */
  lemma {:induction false} PcScCommandsArrive(replies: seq<PcSc.CardReply>, log: seq<Exchange>)
    ensures CardHas(Wire(replies, log)) == Commands(log)
    decreases |log|
  {
    hide PcSc.Reassemble, PcSc.Commands, PcSc.Follows, PcSc.Remaining;
    if log != [] {
      var n := PcSc.Reassemble(replies, 0, [], 0).sends;
      PcSc.SendsItsCommand(log[0].apdu, replies, 0, [], 0);
      PcScCommandsArrive(PcSc.Remaining(replies, n), log[1..]);
      var wire := Wire(replies, log);
      assert wire[0][0] == log[0].apdu && wire[1..] == Wire(PcSc.Remaining(replies, n), log[1..]);
      forall k | 0 < k < |log|
        ensures CardHas(wire)[k] == log[k].apdu
      {
        assert CardHas(wire)[k] == CardHas(wire[1..])[k - 1] == Commands(log[1..])[k - 1];
      }
    }
  }

  /** A transmit looks at no answer beyond those it uses. */
  lemma {:induction false} LooksNoFurther(replies: seq<PcSc.CardReply>, more: seq<PcSc.CardReply>, j: nat, acc: seq<byte>, chunks: nat)
    requires PcSc.Reassemble(replies, j, acc, chunks).sends <= |replies|
    ensures PcSc.Reassemble(replies + more, j, acc, chunks) == PcSc.Reassemble(replies, j, acc, chunks)
    decreases |replies| - j
  {
    hide PcSc.Reassemble;
    PcSc.ReassembleStep(replies, j, acc, chunks);
    PcSc.ReassembleStep(replies + more, j, acc, chunks);
    if j < |replies| {
      var r := replies[j];
      assert PcSc.ReplyAt(replies + more, j) == r;
      if PcSc.IsAnswer(r) {
        if PcSc.Sw1(r) == 0x61 && |acc + PcSc.Body(r)| <= PcSc.MAX_BYTES && chunks + 1 <= PcSc.MAX_CHUNKS {
          LooksNoFurther(replies, more, j + 1, acc + PcSc.Body(r), chunks + 1);
        } else if PcSc.Sw1(r) == 0x6C && |acc + PcSc.Body(r)| <= PcSc.MAX_BYTES && chunks + 1 <= PcSc.MAX_CHUNKS {
          LooksNoFurther(replies, more, j + 1, [], 0);
        }
      }
    }
  }

  /** However the card cuts an answer within the limits, it yields it. */
  lemma ChainYields(parts: seq<seq<byte>>, hints: seq<byte>, sw: u16)
    requires PcSc.WithinLimits(parts) && |hints| >= |parts| && sw / 0x100 != 0x61 && sw / 0x100 != 0x6C
    ensures Yields(PcSc.Chain(parts, hints, sw), (PcSc.Concat(parts), sw))
  {
    hide PcSc.Chain, PcSc.Reassemble, PcSc.WithinLimits;
    PcSc.ChainIsReassembled(parts, hints, sw);
    PcSc.ChainLength(parts, hints, sw);
  }

  lemma {:induction false} BlocksCarry(blocks: seq<seq<PcSc.CardReply>>, log: seq<Exchange>, answers: seq<Answer>)
    requires |blocks| == |log| == |answers| && OverPcSc(Blocks(blocks), log)
    requires forall k :: 0 <= k < |blocks| ==> Yields(blocks[k], answers[k])
    ensures AllCarried(log, Given(answers, |log|))
    decreases |log|
  {
    hide PcSc.Reassemble, Carries;
    if log != [] {
      var rest := Blocks(blocks[1..]);
      assert Yields(blocks[0], answers[0]);
      LooksNoFurther(blocks[0], rest, 0, [], 0);
      assert PcSc.Remaining(blocks[0] + rest, |blocks[0]|) == rest;
      BlocksCarry(blocks[1..], log[1..], answers[1..]);
      FirstCarried(blocks[0], log[0].reply, answers[0]);
      assert Given(answers, |log|)[1..] == Given(answers[1..], |log[1..]|);
      CarriedFirst(log, Given(answers, |log|));
    }
  }

  lemma FirstCarried(block: seq<PcSc.CardReply>, reply: Response, answer: Answer)
    requires Yields(block, answer) && reply == PcSc.Reassemble(block, 0, [], 0).result
    ensures Carries(reply, Some(answer))
  {
    hide PcSc.Reassemble;
    PcSc.ReassembleError(block, 0, [], 0);
  }

  /** A session over PC/SC always conforms, whichever of its transmits fail. */
  lemma PcScConforms(card: Card, token: Token, log: seq<Exchange>, answers: seq<Answer>, blocks: seq<seq<PcSc.CardReply>>)
    requires SoundCard(card) && Served(card, token, CardHas(Wire(Blocks(blocks), log)), Given(answers, |log|))
    requires |blocks| == |log| == |answers| && OverPcSc(Blocks(blocks), log)
    requires forall k :: 0 <= k < |blocks| ==> Yields(blocks[k], answers[k])
    ensures Conforms(card, token, log, Given(answers, |log|))
  {
    hide SoundCard, Served, Yields, OverPcSc;
    PcScCommandsArrive(Blocks(blocks), log);
    BlocksCarry(blocks, log, answers);
    ServedConforms(card, token, log, Given(answers, |log|));
  }
}
