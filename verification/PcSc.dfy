/**
 The PC/SC transport: response chunks continued with GET RESPONSE (sections 5.1.3 and
 7.6.1 of ISO/IEC 7816-4:2005) and commands reissued with the length the card wants.
 */
module PcSc {
  import opened Bytes
  import opened Proto
  import opened Errors

  const RBUF: nat := 4096
  const MAX_BYTES: nat := 65536
  const MAX_CHUNKS: nat := 64

  /** What one card transmit returns: the bytes answered, or a PC/SC error. */
  datatype CardReply = Reply(bytes: seq<byte>) | CardError

  /** The card's answers in order; beyond the last one the card is gone. */
  function ReplyAt(replies: seq<CardReply>, j: nat): CardReply {
    if j < |replies| then replies[j] else CardError
  }

  predicate IsAnswer(r: CardReply) {
    r.Reply? && 2 <= |r.bytes| <= RBUF
  }

  function Body(r: CardReply): seq<byte>
    requires IsAnswer(r)
  {
    r.bytes[..|r.bytes| - 2]
  }

  function Sw1(r: CardReply): byte
    requires IsAnswer(r)
  {
    r.bytes[|r.bytes| - 2]
  }

  function Sw2(r: CardReply): byte
    requires IsAnswer(r)
  {
    r.bytes[|r.bytes| - 1]
  }

  predicate Resets(r: CardReply) {
    IsAnswer(r) && Sw1(r) == 0x6C
  }

  /** The card has more to say: `61xx` or `6Cxx`. */
  predicate Continues(r: CardReply) {
    IsAnswer(r) && (Sw1(r) == 0x61 || Sw1(r) == 0x6C)
  }

  /** The command sent before answer `j`. */
  function CommandFor(apdu: seq<byte>, replies: seq<CardReply>, j: nat): seq<byte> {
    if j == 0 || !Continues(ReplyAt(replies, j - 1)) then apdu
    else
      var last := ReplyAt(replies, j - 1);
      if Sw1(last) == 0x61 then [0x00, 0xC0, 0x00, 0x00, Sw2(last)] else apdu + [Sw2(last)]
  }

  function Commands(apdu: seq<byte>, replies: seq<CardReply>, n: nat): (cs: seq<seq<byte>>)
    ensures |cs| == n
  {
    seq(n, j requires 0 <= j < n => CommandFor(apdu, replies, j))
  }

  lemma NextCommand(apdu: seq<byte>, replies: seq<CardReply>, n: nat)
    ensures var r := ReplyAt(replies, n);
            Continues(r) ==>
              CommandFor(apdu, replies, n + 1) ==
              if Sw1(r) == 0x61 then [0x00, 0xC0, 0x00, 0x00, Sw2(r)] else apdu + [Sw2(r)]
  {
  }

  /** The answers not given yet after `n` transmits. */
  function Remaining(replies: seq<CardReply>, n: nat): seq<CardReply> {
    if n >= |replies| then [] else replies[n..]
  }

  lemma RemainingShift(replies: seq<CardReply>, n: nat)
    ensures Remaining(replies, 0) == replies
    ensures ReplyAt(Remaining(replies, n), 0) == ReplyAt(replies, n)
    ensures Remaining(Remaining(replies, n), 1) == Remaining(replies, n + 1)
  {
  }

  lemma CommandsExtend(before: seq<seq<byte>>, apdu: seq<byte>, replies: seq<CardReply>, n: nat)
    ensures before + Commands(apdu, replies, 0) == before
    ensures before + Commands(apdu, replies, n + 1) == before + Commands(apdu, replies, n) + [CommandFor(apdu, replies, n)]
    ensures var all := before + Commands(apdu, replies, n + 1); before < all && all[|before|] == apdu
  {
    hide Continues;
    assert Commands(apdu, replies, n + 1) == Commands(apdu, replies, n) + [CommandFor(apdu, replies, n)];
  }

  datatype Run = Run(result: Response, sends: nat)

  /** The reassembly from answer `j` on, with `acc` gathered in `chunks` chunks. */
  function Reassemble(replies: seq<CardReply>, j: nat, acc: seq<byte>, chunks: nat): Run
    decreases |replies| - j
  {
    var r := ReplyAt(replies, j);
    if r.CardError? || |r.bytes| > RBUF then Run(Err(Pcsc), j + 1)
    else if |r.bytes| < 2 then Run(Err(EmptyResponse), j + 1)
    else if |acc + Body(r)| > MAX_BYTES || chunks + 1 > MAX_CHUNKS then Run(Err(Parse(Malformed)), j + 1)
    else if Sw1(r) == 0x61 then Reassemble(replies, j + 1, acc + Body(r), chunks + 1)
    else if Sw1(r) == 0x6C then Reassemble(replies, j + 1, [], 0)
    else Run(Ok((acc + Body(r), U16OfBe(Sw1(r), Sw2(r)))), j + 1)
  }

  lemma ReassembleStep(replies: seq<CardReply>, j: nat, acc: seq<byte>, chunks: nat)
    ensures var r := ReplyAt(replies, j);
            Reassemble(replies, j, acc, chunks) ==
            if r.CardError? || |r.bytes| > RBUF then Run(Err(Pcsc), j + 1)
            else if |r.bytes| < 2 then Run(Err(EmptyResponse), j + 1)
            else if |acc + Body(r)| > MAX_BYTES || chunks + 1 > MAX_CHUNKS then Run(Err(Parse(Malformed)), j + 1)
            else if Sw1(r) == 0x61 then Reassemble(replies, j + 1, acc + Body(r), chunks + 1)
            else if Sw1(r) == 0x6C then Reassemble(replies, j + 1, [], 0)
            else Run(Ok((acc + Body(r), U16OfBe(Sw1(r), Sw2(r)))), j + 1)
  {
  }

  class PcScTransport {
    var replies: seq<CardReply>
    var sent: seq<seq<byte>>

    constructor (answers: seq<CardReply>)
      ensures replies == answers && sent == []
    {
      replies, sent := answers, [];
    }

    /** One exchange with the card. */
    method CardTransmit(command: seq<byte>) returns (r: CardReply)
      modifies this
      ensures sent == old(sent) + [command]
      ensures r == ReplyAt(old(replies), 0)
      ensures replies == Remaining(old(replies), 1) && (r.Reply? ==> |replies| < |old(replies)|)
    {
      sent := sent + [command];
      if replies == [] {
        return CardError;
      }
      r := replies[0];
      replies := replies[1..];
    }

    method RawTransmit(apdu: seq<byte>) returns (r: Response)
      modifies this
      ensures var run := Reassemble(old(replies), 0, [], 0);
              r == run.result && sent == old(sent) + Commands(apdu, old(replies), run.sends) &&
              replies == Remaining(old(replies), run.sends)
      ensures old(sent) < sent && sent[|old(sent)|] == apdu
    {
      var acc: seq<byte> := [];
      var toSend := apdu;
      var chunks := 0;
      ghost var all, before, n := replies, sent, 0;
      NothingSent(all, before, apdu);
      hide Sending, Ended, ReplyAt, Remaining, Reassemble, Commands;
      while true
        invariant Sending(all, before, apdu, n, replies, sent, toSend, acc, chunks)
        decreases |replies|
      {
        SendingTurn(all, before, apdu, n, replies, sent, toSend, acc, chunks);
        var resp := CardTransmit(toSend);
        if resp.CardError? || |resp.bytes| > RBUF {
          EndedRun(all, before, apdu, Err(Pcsc), replies, sent);
          return Err(Pcsc);
        }
        if |resp.bytes| < 2 {
          EndedRun(all, before, apdu, Err(EmptyResponse), replies, sent);
          return Err(EmptyResponse);
        }
        var split := |resp.bytes| - 2;
        acc := acc + resp.bytes[..split];
        chunks := chunks + 1;
        if |acc| > MAX_BYTES || chunks > MAX_CHUNKS {
          EndedRun(all, before, apdu, Err(Parse(Malformed)), replies, sent);
          return Err(Parse(Malformed));
        }
        n := n + 1;
        if resp.bytes[split] == 0x61 {
          toSend := [0x00, 0xC0, 0x00, 0x00, resp.bytes[split + 1]];
        } else if resp.bytes[split] == 0x6C {
          toSend := apdu;
          toSend := toSend + [resp.bytes[split + 1]];
          acc := [];
          chunks := 0;
        } else {
          var hi: int := resp.bytes[split];
          r := Ok((acc, hi * 0x100 + resp.bytes[split + 1]));
          EndedRun(all, before, apdu, r, replies, sent);
          return;
        }
      }
    }
  }

  /** The loop has had `n` answers of `all` and sends `toSend` next. */
  ghost predicate Sending(all: seq<CardReply>, before: seq<seq<byte>>, apdu: seq<byte>, n: nat, replies: seq<CardReply>,
                          sent: seq<seq<byte>>, toSend: seq<byte>, acc: seq<byte>, chunks: nat)
  {
    && replies == Remaining(all, n) && sent == before + Commands(apdu, all, n) && toSend == CommandFor(apdu, all, n)
    && Reassemble(all, 0, [], 0) == Reassemble(all, n, acc, chunks)
  }

  ghost predicate Ended(all: seq<CardReply>, before: seq<seq<byte>>, apdu: seq<byte>, r: Response, replies: seq<CardReply>,
                        sent: seq<seq<byte>>)
  {
    var run := Reassemble(all, 0, [], 0);
    && r == run.result && replies == Remaining(all, run.sends)
    && run.sends > 0 && sent == before + Commands(apdu, all, run.sends)
  }

  lemma NothingSent(all: seq<CardReply>, before: seq<seq<byte>>, apdu: seq<byte>)
    ensures Sending(all, before, apdu, 0, all, before, apdu, [], 0)
  {
    CommandsExtend(before, apdu, all, 0);
  }

  /** One turn of the loop. */
  lemma SendingTurn(all: seq<CardReply>, before: seq<seq<byte>>, apdu: seq<byte>, n: nat, replies: seq<CardReply>,
                    sent: seq<seq<byte>>, toSend: seq<byte>, acc: seq<byte>, chunks: nat)
    requires Sending(all, before, apdu, n, replies, sent, toSend, acc, chunks)
    ensures var (resp, rest, now) := (ReplyAt(replies, 0), Remaining(replies, 1), sent + [toSend]);
            if resp.CardError? || |resp.bytes| > RBUF then Ended(all, before, apdu, Err(Pcsc), rest, now)
            else if |resp.bytes| < 2 then Ended(all, before, apdu, Err(EmptyResponse), rest, now)
            else
              var split := |resp.bytes| - 2;
              var (more, sw1, sw2) := (acc + resp.bytes[..split], resp.bytes[split], resp.bytes[split + 1]);
              if |more| > MAX_BYTES || chunks + 1 > MAX_CHUNKS then Ended(all, before, apdu, Err(Parse(Malformed)), rest, now)
              else if sw1 == 0x61 then
                Sending(all, before, apdu, n + 1, rest, now, [0x00, 0xC0, 0x00, 0x00, sw2], more, chunks + 1)
              else if sw1 == 0x6C then Sending(all, before, apdu, n + 1, rest, now, apdu + [sw2], [], 0)
              else Ended(all, before, apdu, Ok((more, U16OfBe(sw1, sw2))), rest, now)
  {
    RemainingShift(all, n);
    CommandsExtend(before, apdu, all, n);
    NextCommand(apdu, all, n);
    ReassembleStep(all, n, acc, chunks);
    hide Remaining, Commands, CommandFor, Reassemble, ReplyAt;
  }

  lemma EndedRun(all: seq<CardReply>, before: seq<seq<byte>>, apdu: seq<byte>, r: Response, replies: seq<CardReply>,
                 sent: seq<seq<byte>>)
    requires Ended(all, before, apdu, r, replies, sent)
    ensures var run := Reassemble(all, 0, [], 0);
            r == run.result && sent == before + Commands(apdu, all, run.sends) && replies == Remaining(all, run.sends)
    ensures before < sent && sent[|before|] == apdu
  {
    hide Remaining, Reassemble;
    CommandsExtend(before, apdu, all, Reassemble(all, 0, [], 0).sends - 1);
  }

  lemma {:induction false} ReassembleError(replies: seq<CardReply>, j: nat, acc: seq<byte>, chunks: nat)
    ensures var r := Reassemble(replies, j, acc, chunks).result; r.Err? ==> IsLinkError(r.error)
    decreases |replies| - j
  {
    var r := ReplyAt(replies, j);
    if Continues(r) && |acc + Body(r)| <= MAX_BYTES && chunks + 1 <= MAX_CHUNKS {
      if Sw1(r) == 0x61 {
        ReassembleError(replies, j + 1, acc + Body(r), chunks + 1);
      } else {
        ReassembleError(replies, j + 1, [], 0);
      }
    }
  }

  // --------------------------------------------------------- on the wire

  /** What follows an answer that asks for more: GET RESPONSE for `61xx`, the command and one more byte for `6Cxx`. */
  predicate Follows(apdu: seq<byte>, reply: CardReply, command: seq<byte>) {
    reply.Reply? && |reply.bytes| >= 2 &&
    var (sw1, sw2) := (reply.bytes[|reply.bytes| - 2], reply.bytes[|reply.bytes| - 1]);
    (sw1 == 0x61 && command == [0x00, 0xC0, 0x00, 0x00, sw2]) || (sw1 == 0x6C && command == apdu + [sw2])
  }

  /** Every transmit sends its own command first, and then only what the answers ask for. */
  lemma {:induction false} SendsItsCommand(apdu: seq<byte>, replies: seq<CardReply>, j: nat, acc: seq<byte>, chunks: nat)
    ensures var n := Reassemble(replies, j, acc, chunks).sends;
            n > j && Commands(apdu, replies, n)[0] == apdu &&
            forall i :: j < i < n ==> Follows(apdu, ReplyAt(replies, i - 1), Commands(apdu, replies, n)[i])
    decreases |replies| - j
  {
    hide Reassemble;
    ReassembleStep(replies, j, acc, chunks);
    var r := ReplyAt(replies, j);
    if Continues(r) && |acc + Body(r)| <= MAX_BYTES && chunks + 1 <= MAX_CHUNKS {
      NextCommand(apdu, replies, j);
      if Sw1(r) == 0x61 {
        SendsItsCommand(apdu, replies, j + 1, acc + Body(r), chunks + 1);
      } else {
        SendsItsCommand(apdu, replies, j + 1, [], 0);
      }
    }
  }

  // -------------------------------------------------- chunking is invisible

  /** The index of the first answer after the last `6Cxx` before `j`. */
  function Start(replies: seq<CardReply>, j: nat): (s: nat)
    ensures s <= j
  {
    if j == 0 || Resets(ReplyAt(replies, j - 1)) then j else Start(replies, j - 1)
  }

  /** The bodies of answers `i..j`, put end to end. */
  function Bodies(replies: seq<CardReply>, i: nat, j: nat): seq<byte>
    requires i <= j
    decreases j
  {
    if i == j || !IsAnswer(ReplyAt(replies, j - 1)) then []
    else Bodies(replies, i, j - 1) + Body(ReplyAt(replies, j - 1))
  }

  /** Answer `j` is well sized and the answers since the last `6Cxx` are within the limits. */
  ghost predicate Fits(replies: seq<CardReply>, j: nat) {
    var s := Start(replies, j);
    IsAnswer(ReplyAt(replies, j)) && j + 1 - s <= MAX_CHUNKS && |Bodies(replies, s, j + 1)| <= MAX_BYTES
  }

  /** Answer `e` is the first that does not ask for more, and all up to it fit. */
  ghost predicate Final(replies: seq<CardReply>, e: nat) {
    (forall j :: 0 <= j <= e ==> Fits(replies, j)) &&
    (forall j :: 0 <= j < e ==> Continues(ReplyAt(replies, j))) &&
    !Continues(ReplyAt(replies, e))
  }

  /** What the host then returns: the bodies since the last `6Cxx`, and the last status word. */
  ghost function Answered(replies: seq<CardReply>, e: nat): (seq<byte>, u16)
    requires Final(replies, e)
  {
    assert Fits(replies, e);
    (Bodies(replies, Start(replies, e), e + 1), U16OfBe(Sw1(ReplyAt(replies, e)), Sw2(ReplyAt(replies, e))))
  }

  lemma OneMore(replies: seq<CardReply>, j: nat)
    requires Fits(replies, j)
    ensures var s := Start(replies, j); var r := ReplyAt(replies, j);
            Bodies(replies, s, j + 1) == Bodies(replies, s, j) + Body(r) &&
            Start(replies, j + 1) == (if Resets(r) then j + 1 else s)
  {
  }

  lemma {:induction false} ReachesFinal(replies: seq<CardReply>, e: nat, j: nat)
    requires Final(replies, e) && j <= e
    ensures Reassemble(replies, j, Bodies(replies, Start(replies, j), j), j - Start(replies, j)) ==
            Run(Ok(Answered(replies, e)), e + 1)
    decreases e - j
  {
    hide Bodies, Start;
    assert Fits(replies, j);
    OneMore(replies, j);
    if j < e {
      assert Continues(ReplyAt(replies, j));
      NoBodies(replies, j + 1);
      ReachesFinal(replies, e, j + 1);
    }
  }

  lemma NoBodies(replies: seq<CardReply>, j: nat)
    ensures Bodies(replies, j, j) == []
  {
  }

  lemma {:induction false} SuccessIsFinal(replies: seq<CardReply>, j: nat)
    requires forall i :: 0 <= i < j ==> Fits(replies, i) && Continues(ReplyAt(replies, i))
    requires Reassemble(replies, j, Bodies(replies, Start(replies, j), j), j - Start(replies, j)).result.Ok?
    ensures exists e :: e >= j && Final(replies, e)
    decreases |replies| - j
  {
    hide Bodies, Start;
    FitsIff(replies, j);
    assert Fits(replies, j);
    OneMore(replies, j);
    if Continues(ReplyAt(replies, j)) {
      NoBodies(replies, j + 1);
      SuccessIsFinal(replies, j + 1);
    } else {
      assert Final(replies, j);
    }
  }

  lemma FitsIff(replies: seq<CardReply>, j: nat)
    requires IsAnswer(ReplyAt(replies, j))
    ensures var s := Start(replies, j);
            Fits(replies, j) <==> |Bodies(replies, s, j) + Body(ReplyAt(replies, j))| <= MAX_BYTES && j - s + 1 <= MAX_CHUNKS
  {
  }

  /**
   The host succeeds exactly when some answer is final, and then it returns the bodies
   received since the last `6Cxx` and a status word that is neither `61xx` nor `6Cxx`.
   */
  lemma SuccessIff(replies: seq<CardReply>, data: seq<byte>, sw: u16)
    ensures Reassemble(replies, 0, [], 0).result == Ok((data, sw)) <==>
            exists e :: Final(replies, e) && Answered(replies, e) == (data, sw)
  {
    hide Bodies, Start;
    FromTheStart(replies);
    if Reassemble(replies, 0, [], 0).result == Ok((data, sw)) {
      SuccessIsFinal(replies, 0);
      var e :| e >= 0 && Final(replies, e);
      ReachesFinal(replies, e, 0);
      assert Answered(replies, e) == (data, sw);
    }
    if e :| Final(replies, e) && Answered(replies, e) == (data, sw) {
      ReachesFinal(replies, e, 0);
    }
  }

  lemma FromTheStart(replies: seq<CardReply>)
    ensures Start(replies, 0) == 0 && Bodies(replies, 0, 0) == []
  {
  }

  /** What every success is: at most 64 chunks, at most 65536 bytes, a proper status word. */
  lemma SuccessLimits(replies: seq<CardReply>, e: nat)
    requires Final(replies, e)
    ensures var (data, sw) := Answered(replies, e);
            |data| <= 65536 && e + 1 - Start(replies, e) <= 64 &&
            sw / 0x100 != 0x61 && sw / 0x100 != 0x6C
  {
    hide Bodies, Start;
    assert Fits(replies, e);
  }

  /** Any two chunkings of the same body, whatever was retried before, give the same result. */
  lemma ChunkingIsInvisible(one: seq<CardReply>, e: nat, other: seq<CardReply>, f: nat)
    requires Final(one, e) && Final(other, f)
    requires Bodies(one, Start(one, e), e + 1) == Bodies(other, Start(other, f), f + 1)
    requires IsAnswer(ReplyAt(one, e)) && IsAnswer(ReplyAt(other, f))
    requires Sw1(ReplyAt(one, e)) == Sw1(ReplyAt(other, f)) && Sw2(ReplyAt(one, e)) == Sw2(ReplyAt(other, f))
    ensures Reassemble(one, 0, [], 0).result == Reassemble(other, 0, [], 0).result
  {
    hide Bodies, Start;
    FromTheStart(one);
    FromTheStart(other);
    ReachesFinal(one, e, 0);
    ReachesFinal(other, f, 0);
  }

  /** When an answer fits: it has 2 to 4096 bytes, and at most 64 answers with at most 65536 bytes of bodies since the last `6Cxx`. */
  lemma FitsExactly(replies: seq<CardReply>, j: nat)
    ensures Fits(replies, j) <==>
            j < |replies| && replies[j].Reply? && 2 <= |replies[j].bytes| <= 4096 &&
            j + 1 - Start(replies, j) <= 64 && |Bodies(replies, Start(replies, j), j + 1)| <= 65536
  {
    hide Bodies, Start;
  }

  /** A card error or an answer past the buffer, one without a status word, or one past the limits. */
  function MisfitError(replies: seq<CardReply>, e: nat): Error {
    if e >= |replies| || replies[e].CardError? || |replies[e].bytes| > 4096 then Pcsc
    else if |replies[e].bytes| < 2 then EmptyResponse
    else Parse(Malformed)
  }

  /** The first answer that does not fit, and which has none but fitting requests for more before it, ends in its own error. */
  lemma {:induction false} FailsAt(replies: seq<CardReply>, e: nat, j: nat)
    requires j <= e && !Fits(replies, e)
    requires forall i :: 0 <= i < e ==> Fits(replies, i) && Continues(ReplyAt(replies, i))
    ensures Reassemble(replies, j, Bodies(replies, Start(replies, j), j), j - Start(replies, j)) ==
            Run(Err(MisfitError(replies, e)), e + 1)
    decreases e - j
  {
    hide Bodies, Start, Reassemble;
    ReassembleStep(replies, j, Bodies(replies, Start(replies, j), j), j - Start(replies, j));
    if j < e {
      assert Fits(replies, j);
      OneMore(replies, j);
      FitsIff(replies, j);
      assert Continues(ReplyAt(replies, j));
      NoBodies(replies, j + 1);
      FailsAt(replies, e, j + 1);
    } else if IsAnswer(ReplyAt(replies, j)) {
      FitsIff(replies, j);
    }
  }

  /** Every run ends so: at a final answer, or at the first that does not fit, with the error it calls for. */
  lemma FailureIff(replies: seq<CardReply>, error: Error)
    ensures Reassemble(replies, 0, [], 0).result == Err(error) <==>
            exists e: nat :: FirstMisfit(replies, e) && error == MisfitError(replies, e)
  {
    hide Bodies, Start, Reassemble, Fits, Continues, MisfitError;
    FromTheStart(replies);
    forall e: nat | FirstMisfit(replies, e)
      ensures Reassemble(replies, 0, [], 0).result == Err(MisfitError(replies, e))
    {
      FailsAt(replies, e, 0);
    }
    if Reassemble(replies, 0, [], 0).result.Err? {
      var e := EndsSomewhere(replies, 0);
      if Final(replies, e) {
        ReachesFinal(replies, e, 0);
      }
    }
  }

  ghost predicate FirstMisfit(replies: seq<CardReply>, e: nat) {
    !Fits(replies, e) && forall i :: 0 <= i < e ==> Fits(replies, i) && Continues(ReplyAt(replies, i))
  }

  lemma {:induction false} EndsSomewhere(replies: seq<CardReply>, j: nat) returns (e: nat)
    requires forall i :: 0 <= i < j ==> Fits(replies, i) && Continues(ReplyAt(replies, i))
    ensures Final(replies, e) || FirstMisfit(replies, e)
    decreases |replies| - j
  {
    hide Bodies, Start;
    e := j;
    if Fits(replies, j) && Continues(ReplyAt(replies, j)) {
      e := EndsSomewhere(replies, j + 1);
    }
  }

  // ---------------------------------------------------------------- work bound

  /** How many of the answers `i..j` are `6Cxx`. */
  function ResetCount(replies: seq<CardReply>, i: nat, j: nat): nat
    requires i <= j
    decreases j - i
  {
    if i == j then 0 else (if Resets(ReplyAt(replies, i)) then 1 else 0) + ResetCount(replies, i + 1, j)
  }

  lemma {:induction false} SendsFrom(replies: seq<CardReply>, j: nat, acc: seq<byte>, chunks: nat)
    requires chunks <= MAX_CHUNKS
    ensures var n := Reassemble(replies, j, acc, chunks).sends;
            j < n && n - j + chunks <= MAX_CHUNKS * ResetCount(replies, j, n) + MAX_CHUNKS + 1
    decreases |replies| - j
  {
    var r := ReplyAt(replies, j);
    var n := Reassemble(replies, j, acc, chunks).sends;
    if IsAnswer(r) && |acc + Body(r)| <= MAX_BYTES && chunks + 1 <= MAX_CHUNKS && Continues(r) {
      if Sw1(r) == 0x61 {
        SendsFrom(replies, j + 1, acc + Body(r), chunks + 1);
      } else {
        SendsFrom(replies, j + 1, [], 0);
      }
    } else {
      assert n == j + 1;
    }
  }

  /** A run in which the card answers `6Cxx` k times makes at most 64k + 65 transmits. */
  lemma WorkBound(replies: seq<CardReply>)
    ensures var n := Reassemble(replies, 0, [], 0).sends;
            n <= MAX_CHUNKS * ResetCount(replies, 0, n) + MAX_CHUNKS + 1
  {
    SendsFrom(replies, 0, [], 0);
  }

  /** A card that asks for the most work: after every 63 chunks, a `6C00`, `k` times; then only chunks. */
  function Worst(k: nat): (replies: seq<CardReply>)
    ensures |replies| == MAX_CHUNKS * k + MAX_CHUNKS + 1
  {
    seq(MAX_CHUNKS * k + MAX_CHUNKS + 1, j =>
      if j < MAX_CHUNKS * k && j % MAX_CHUNKS == MAX_CHUNKS - 1 then Reply([0x6C, 0x00]) else Reply([0x61, 0x00]))
  }

  lemma WorstAt(k: nat, segment: nat, c: nat)
    requires segment <= k && c <= if segment < k then MAX_CHUNKS - 1 else MAX_CHUNKS
    ensures var j := MAX_CHUNKS * segment + c;
            j < |Worst(k)| &&
            Worst(k)[j] == Reply(if segment < k && c == MAX_CHUNKS - 1 then [0x6C, 0x00] else [0x61, 0x00])
  {
    var j := MAX_CHUNKS * segment + c;
    if segment < k {
      assert j < MAX_CHUNKS * k && j % MAX_CHUNKS == c;
    }
  }

  lemma EmptyChunk(replies: seq<CardReply>, j: nat, chunks: nat)
    requires ReplyAt(replies, j) == Reply([0x61, 0x00]) || ReplyAt(replies, j) == Reply([0x6C, 0x00])
    ensures Reassemble(replies, j, [], chunks) ==
            if chunks >= MAX_CHUNKS then Run(Err(Parse(Malformed)), j + 1)
            else if Sw1(ReplyAt(replies, j)) == 0x61 then Reassemble(replies, j + 1, [], chunks + 1)
            else Reassemble(replies, j + 1, [], 0)
  {
    assert [] + Body(ReplyAt(replies, j)) == [];
  }

  lemma {:induction false} WorstSends(k: nat, segment: nat, c: nat)
    requires segment <= k && c <= if segment < k then MAX_CHUNKS - 1 else MAX_CHUNKS
    ensures Reassemble(Worst(k), MAX_CHUNKS * segment + c, [], c).sends == |Worst(k)|
    decreases k - segment, MAX_CHUNKS - c
  {
    hide Worst, Reassemble;
    WorstAt(k, segment, c);
    EmptyChunk(Worst(k), MAX_CHUNKS * segment + c, c);
    if segment < k && c == MAX_CHUNKS - 1 {
      WorstSends(k, segment + 1, 0);
    } else if c < MAX_CHUNKS {
      WorstSends(k, segment, c + 1);
    }
  }

  lemma {:induction false} WorstResets(k: nat, segment: nat, c: nat)
    requires segment <= k && c <= if segment < k then MAX_CHUNKS - 1 else MAX_CHUNKS
    ensures ResetCount(Worst(k), MAX_CHUNKS * segment + c, |Worst(k)|) == k - segment
    decreases k - segment, MAX_CHUNKS - c
  {
    hide Worst;
    WorstAt(k, segment, c);
    if segment < k && c == MAX_CHUNKS - 1 {
      WorstResets(k, segment + 1, 0);
    } else if c < MAX_CHUNKS {
      WorstResets(k, segment, c + 1);
    } else {
      assert ResetCount(Worst(k), |Worst(k)|, |Worst(k)|) == 0;
    }
  }

  /** The work bound is reached, for every number of `6Cxx` answers. */
  lemma WorkBoundIsTight(k: nat)
    ensures var n := Reassemble(Worst(k), 0, [], 0).sends;
            ResetCount(Worst(k), 0, n) == k && n == MAX_CHUNKS * k + MAX_CHUNKS + 1
  {
    WorstSends(k, 0, 0);
    WorstResets(k, 0, 0);
  }

  // ------------------------------------------------------ a card that chunks

  function Concat(parts: seq<seq<byte>>): seq<byte> {
    if parts == [] then [] else Concat(parts[..|parts| - 1]) + parts[|parts| - 1]
  }

  /** The answers of a card that sends a body in `parts`, announcing `hints` on all but the last. */
  function Chain(parts: seq<seq<byte>>, hints: seq<byte>, sw: u16): seq<CardReply>
    requires |hints| >= |parts|
  {
    seq(|parts|, i requires 0 <= i < |parts| => Link(parts, hints, sw, i))
  }

  function Link(parts: seq<seq<byte>>, hints: seq<byte>, sw: u16, i: nat): (r: CardReply)
    requires i < |parts| <= |hints|
    ensures |parts[i]| <= RBUF - 2 ==> IsAnswer(r) && Body(r) == parts[i]
    ensures IsAnswer(r) ==> [Sw1(r), Sw2(r)] == if i + 1 < |parts| then [0x61, hints[i]] else U16Be(sw)
  {
    var tail: seq<byte> := if i + 1 < |parts| then [0x61, hints[i]] else U16Be(sw);
    assert (parts[i] + tail)[..|parts[i]|] == parts[i];
    Reply(parts[i] + tail)
  }

  lemma {:induction false} ChainBodies(parts: seq<seq<byte>>, hints: seq<byte>, sw: u16, j: nat)
    requires |hints| >= |parts| && j <= |parts| && forall i :: 0 <= i < |parts| ==> |parts[i]| <= RBUF - 2
    requires sw / 0x100 != 0x6C
    ensures Bodies(Chain(parts, hints, sw), 0, j) == Concat(parts[..j])
    ensures j < |parts| ==> Start(Chain(parts, hints, sw), j) == 0
    ensures |Concat(parts[..j])| <= |Concat(parts)|
  {
    var replies := Chain(parts, hints, sw);
    assert parts[..|parts|] == parts;
    if j > 0 {
      ChainBodies(parts, hints, sw, j - 1);
      assert parts[..j][..j - 1] == parts[..j - 1];
      assert replies[j - 1] == Link(parts, hints, sw, j - 1);
    }
    PrefixIsShorter(parts, j);
  }

  lemma {:induction false} PrefixIsShorter(parts: seq<seq<byte>>, j: nat)
    requires j <= |parts|
    ensures |Concat(parts[..j])| <= |Concat(parts)|
    decreases |parts| - j
  {
    if j < |parts| {
      PrefixIsShorter(parts, j + 1);
      assert parts[..j + 1][..j] == parts[..j];
    } else {
      assert parts[..j] == parts;
    }
  }

  ghost predicate WithinLimits(parts: seq<seq<byte>>) {
    1 <= |parts| <= MAX_CHUNKS && |Concat(parts)| <= MAX_BYTES &&
    forall i :: 0 <= i < |parts| ==> |parts[i]| <= RBUF - 2
  }

  lemma ChainFits(parts: seq<seq<byte>>, hints: seq<byte>, sw: u16, j: nat)
    requires WithinLimits(parts) && |hints| >= |parts| && j < |parts|
    requires sw / 0x100 != 0x61 && sw / 0x100 != 0x6C
    ensures var replies := Chain(parts, hints, sw);
            Fits(replies, j) && (Continues(replies[j]) <==> j + 1 < |parts|)
  {
    hide Concat, Bodies, Start;
    assert Chain(parts, hints, sw)[j] == Link(parts, hints, sw, j);
    var r := Link(parts, hints, sw, j);
    assert Sw1(r) == [Sw1(r), Sw2(r)][0];
    ChainBodies(parts, hints, sw, j);
    ChainBodies(parts, hints, sw, j + 1);
  }

  /** However a card cuts a body within the limits, the host gets the body and the status word. */
  lemma ChainIsReassembled(parts: seq<seq<byte>>, hints: seq<byte>, sw: u16)
    requires WithinLimits(parts) && |hints| >= |parts|
    requires sw / 0x100 != 0x61 && sw / 0x100 != 0x6C
    ensures Reassemble(Chain(parts, hints, sw), 0, [], 0) == Run(Ok((Concat(parts), sw)), |parts|)
  {
    hide Concat, Bodies, Start, Reassemble, Fits, Continues, Chain;
    var replies := Chain(parts, hints, sw);
    var e := |parts| - 1;
    assert |replies| == |parts| by { ChainLength(parts, hints, sw); }
    forall j | 0 <= j <= e
      ensures Fits(replies, j) && (Continues(replies[j]) <==> j < e)
    {
      ChainFits(parts, hints, sw, j);
    }
    assert Final(replies, e);
    ChainAnswer(parts, hints, sw);
    FromTheStart(replies);
    ReachesFinal(replies, e, 0);
  }

  lemma ChainLength(parts: seq<seq<byte>>, hints: seq<byte>, sw: u16)
    requires |hints| >= |parts|
    ensures |Chain(parts, hints, sw)| == |parts|
  {
  }

  lemma ChainAt(parts: seq<seq<byte>>, hints: seq<byte>, sw: u16, i: nat)
    requires WithinLimits(parts) && |hints| >= |parts| && i < |parts|
    ensures var r := ReplyAt(Chain(parts, hints, sw), i);
            IsAnswer(r) && (i + 1 == |parts| ==> U16OfBe(Sw1(r), Sw2(r)) == sw)
  {
    hide U16OfBe, U16Be;
    var r := Link(parts, hints, sw, i);
    assert Chain(parts, hints, sw)[i] == r;
    if i + 1 == |parts| {
      U16RoundTrip(sw, [Sw1(r), Sw2(r)]);
    }
  }

  lemma ChainAnswer(parts: seq<seq<byte>>, hints: seq<byte>, sw: u16)
    requires WithinLimits(parts) && |hints| >= |parts|
    requires sw / 0x100 != 0x6C && Final(Chain(parts, hints, sw), |parts| - 1)
    ensures Answered(Chain(parts, hints, sw), |parts| - 1) == (Concat(parts), sw)
  {
    hide Concat, Bodies, Start, Fits, Final, Chain, U16OfBe, Sw1, Sw2;
    var e := |parts| - 1;
    ChainAt(parts, hints, sw, e);
    ChainBodies(parts, hints, sw, e);
    ChainBodies(parts, hints, sw, e + 1);
    assert parts[..e + 1] == parts;
  }
}
