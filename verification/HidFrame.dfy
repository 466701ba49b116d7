/**
 The 64-byte HID reports that carry one APDU: fragmentation with a 4-bit
 sequence number, and reassembly that polls past "still working" frames.
 */
module HidFrame {
  import opened Bytes

  const REPORT_PAYLOAD: nat := 64
  const PAYLOAD_HEADER: nat := 3
  const MAX_CHUNK: nat := REPORT_PAYLOAD - PAYLOAD_HEADER

  const MAGIC: byte := 0x21
  const FLAG_MORE: byte := 0x20
  const FLAG_BUSY: byte := 0xC0
  const FLAG_LAST: byte := 0x00

  // ---------------------------------------------------------------- sending

  function FrameCount(msg: seq<byte>): nat {
    if msg == [] then 1 else (|msg| + MAX_CHUNK - 1) / MAX_CHUNK
  }

  /** The number of message bytes carried by the first `k` frames. */
  function Carried(msg: seq<byte>, k: nat): (n: nat)
    ensures n <= |msg|
  {
    Min(MAX_CHUNK * k, |msg|)
  }

  /** Report `i` of a message: report ID, magic, flag and index modulo 16, length, chunk, padding. */
  function FrameAt(msg: seq<byte>, i: nat): (f: seq<byte>)
    requires i < FrameCount(msg)
    ensures |f| == REPORT_PAYLOAD + 1
  {
    var chunk := msg[Carried(msg, i)..Carried(msg, i + 1)];
    var flags := if i + 1 == FrameCount(msg) then FLAG_LAST else FLAG_MORE;
    [0, MAGIC, flags + i % 16, |chunk|] + chunk + Zeros(MAX_CHUNK - |chunk|)
  }

  function SendFrames(msg: seq<byte>): seq<seq<byte>> {
    seq(FrameCount(msg), i requires 0 <= i < FrameCount(msg) => FrameAt(msg, i))
  }

  /** The sender: fills one 65-byte buffer per chunk. */
  method BuildSendFrames(apdu: seq<byte>) returns (frames: seq<seq<byte>>)
    ensures frames == SendFrames(apdu)
  {
    if apdu == [] {
      var frame := new byte[REPORT_PAYLOAD + 1](_ => 0);
      frame[1], frame[2], frame[3] := MAGIC, FLAG_LAST, 0;
      assert frame[..] == FrameAt(apdu, 0);
      return [frame[..]];
    }
    frames := [];
    var totalChunks := (|apdu| + MAX_CHUNK - 1) / MAX_CHUNK;
    for i := 0 to totalChunks
      invariant frames == SendFrames(apdu)[..i]
    {
      var chunk := apdu[MAX_CHUNK * i..Min(MAX_CHUNK * (i + 1), |apdu|)];
      var isLast := i + 1 == totalChunks;
      var flags := if isLast then FLAG_LAST else FLAG_MORE;
      var seqNo: byte := i % 16;
      var frame := new byte[REPORT_PAYLOAD + 1](_ => 0);
      frame[0] := 0x00;
      frame[1] := MAGIC;
      frame[2] := flags + seqNo;
      frame[3] := |chunk|;
      forall j | 0 <= j < |chunk| {
        frame[4 + j] := chunk[j];
      }
      assert frame[..] == FrameAt(apdu, i);
      frames := frames + [frame[..]];
    }
  }

  /** Frame `k` carries the bytes that follow those of the first `k` frames, and the last frame ends the message. */
  lemma ChunksConcatenate(msg: seq<byte>, k: nat)
    requires k < FrameCount(msg)
    ensures Carried(msg, k) <= Carried(msg, k + 1)
    ensures msg[..Carried(msg, k)] + msg[Carried(msg, k)..Carried(msg, k + 1)] == msg[..Carried(msg, k + 1)]
    ensures msg[Carried(msg, k)..Carried(msg, k + 1)] + msg[Carried(msg, k + 1)..] == msg[Carried(msg, k)..]
    ensures k + 1 == FrameCount(msg) ==> Carried(msg, k + 1) == |msg|
    ensures k == 0 ==> Carried(msg, k) == 0
  {
  }

  // -------------------------------------------------------------- receiving

  datatype Step = NeedMore | Busy(retries: u32) | Done

  /** `BusyOverflow` is the overflow check of the `u32` retry counter, which panics. */
  datatype FrameError =
    | BadMagic
    | ChunkTooLong(length: byte)
    | OutOfSequence(expected: byte, got: byte)
    | ShortFrame
    | BusyOverflow

  datatype Asm = Asm(buf: seq<byte>, received: byte, busyRetries: u32, done: bool)

  const NEW_ASM := Asm([], 0, 0, false)

  function Payload(raw: seq<byte>): seq<byte> {
    if |raw| >= 2 && raw[0] == 0x00 && raw[1] == MAGIC then raw[1..] else raw
  }

  function HighNibble(b: byte): byte {
    b / 16 * 16
  }

  predicate HasMore(flags: byte) {
    flags / FLAG_MORE % 2 == 1
  }

  /** A "still working" report. */
  predicate IsBusy(raw: seq<byte>) {
    var p := Payload(raw);
    |p| >= PAYLOAD_HEADER && p[0] == MAGIC && HighNibble(p[1]) == FLAG_BUSY
  }

  /** The effect of one received report on the assembler. */
  function PushStep(a: Asm, raw: seq<byte>): (Asm, Result<Step, FrameError>) {
    var p := Payload(raw);
    if |p| < PAYLOAD_HEADER then (a, Err(ShortFrame))
    else if p[0] != MAGIC then (a, Err(BadMagic))
    else if IsBusy(raw) then
      if a.busyRetries == U32_MAX then (a, Err(BusyOverflow))
      else (a.(busyRetries := a.busyRetries + 1), Ok(Busy(a.busyRetries + 1)))
    else if p[1] % 16 != a.received % 16 then
      (a.(busyRetries := 0), Err(OutOfSequence(a.received % 16, p[1] % 16)))
    else
      var b := a.(busyRetries := 0, received := (a.received + 1) % 0x100);
      if p[2] > MAX_CHUNK then (b, Err(ChunkTooLong(p[2])))
      else if PAYLOAD_HEADER + p[2] > |p| then (b, Err(ShortFrame))
      else
        var c := b.(buf := b.buf + p[PAYLOAD_HEADER..PAYLOAD_HEADER + p[2]]);
        if HasMore(HighNibble(p[1])) then (c, Ok(NeedMore)) else (c.(done := true), Ok(Done))
  }

  class ResponseAssembler {
    var buf: seq<byte>
    var received: byte
    var busyRetries: u32
    var done: bool

    ghost function State(): Asm
      reads this
    {
      Asm(buf, received, busyRetries, done)
    }

    constructor ()
      ensures State() == NEW_ASM
    {
      buf, received, busyRetries, done := [], 0, 0, false;
    }

    method Push(raw: seq<byte>) returns (r: Result<Step, FrameError>)
      modifies this
      ensures (State(), r) == PushStep(old(State()), raw)
    {
      hide HighNibble, HasMore;
      var payload := if |raw| >= 2 && raw[0] == 0x00 && raw[1] == MAGIC then raw[1..] else raw;
      if |payload| < PAYLOAD_HEADER {
        return Err(ShortFrame);
      }
      if payload[0] != MAGIC {
        return Err(BadMagic);
      }
      var flags := HighNibble(payload[1]);
      var seqNo := payload[1] % 16;
      if flags == FLAG_BUSY {
        if busyRetries == U32_MAX {
          return Err(BusyOverflow);
        }
        busyRetries := busyRetries + 1;
        return Ok(Busy(busyRetries));
      }
      busyRetries := 0;
      if seqNo != received % 16 {
        return Err(OutOfSequence(received % 16, seqNo));
      }
      received := (received + 1) % 0x100;
      var length := payload[2];
      if length > MAX_CHUNK {
        return Err(ChunkTooLong(length));
      }
      var end := PAYLOAD_HEADER + length;
      if end > |payload| {
        return Err(ShortFrame);
      }
      buf := buf + payload[PAYLOAD_HEADER..end];
      if HasMore(flags) {
        r := Ok(NeedMore);
      } else {
        done := true;
        r := Ok(Done);
      }
    }

    method IntoResponse() returns (r: Option<(seq<byte>, u16)>)
      ensures r == SplitResponse(buf)
    {
      if |buf| < 2 {
        return None;
      }
      var split := |buf| - 2;
      var hi: int := buf[split];
      var sw := hi * 0x100 + buf[split + 1];
      r := Some((buf[..split], sw));
    }
  }

  function SplitResponse(buf: seq<byte>): Option<(seq<byte>, u16)> {
    if |buf| < 2 then None
    else Some((buf[..|buf| - 2], U16OfBe(buf[|buf| - 2], buf[|buf| - 1])))
  }

  /** A response is split off exactly when it is some data followed by its big-endian status word. */
  lemma SplitIffAppended(buf: seq<byte>, data: seq<byte>, sw: u16)
    ensures SplitResponse(buf) == Some((data, sw)) <==> buf == data + U16Be(sw)
  {
    if |buf| >= 2 {
      var n := |buf| - 2;
      assert buf == buf[..n] + [buf[n], buf[n + 1]];
      if buf == data + U16Be(sw) {
        assert buf[..n] == data;
      }
    }
  }

  // ------------------------------------------------------ raw reports, exactly

  /** Every byte of a frame as sent. */
  lemma FrameBytes(msg: seq<byte>, i: nat)
    requires i < FrameCount(msg)
    ensures var f, n := FrameAt(msg, i), if |msg| - 61 * i < 61 then |msg| - 61 * i else 61;
            |f| == 65 && f[0] == 0x00 && f[1] == 0x21 && f[3] == n >= 0 && f[4..4 + n] == msg[61 * i..61 * i + n] &&
            f[2] == (if 61 * (i + 1) < |msg| then 0x20 else 0x00) + i % 16 &&
            forall j :: 4 + n <= j < 65 ==> f[j] == 0
    ensures 61 * (FrameCount(msg) - 1) < |msg| || FrameCount(msg) == 1
    ensures |msg| <= 61 * FrameCount(msg)
  {
  }

  /** The report is `p`, or `p` after a zero report ID. */
  predicate IsOrFollowsId(raw: seq<byte>, p: seq<byte>) {
    raw == p || raw == [0x00] + p
  }

  /** A data report: magic byte, flags with the index, length, chunk, and any padding. */
  function DataReport(flags: byte, chunk: seq<byte>, rest: seq<byte>): seq<byte>
    requires |chunk| <= 0xFF
  {
    [0x21, flags, |chunk|] + chunk + rest
  }

  predicate CarriesData(raw: seq<byte>, flags: byte, chunk: seq<byte>, rest: seq<byte>) {
    |chunk| <= 61 && !(0xC0 <= flags < 0xD0) && IsOrFollowsId(raw, DataReport(flags, chunk, rest))
  }

  /** A report of at least three bytes that opens with the magic byte, with or without report ID. */
  predicate IsReport(raw: seq<byte>, p: seq<byte>) {
    |p| >= 3 && p[0] == 0x21 && IsOrFollowsId(raw, p)
  }

  lemma ReportPayload(raw: seq<byte>, p: seq<byte>)
    requires IsReport(raw, p)
    ensures Payload(raw) == p
  {
  }

  /** A foreign report: refused, whatever the state, and without a trace in it. */
  lemma ForeignIff(a: Asm, raw: seq<byte>)
    ensures PushStep(a, raw).1 == Err(BadMagic) <==>
            |raw| >= 3 && raw[0] != 0x21 && !(raw[0] == 0x00 && raw[1] == 0x21)
    ensures PushStep(a, raw).1 == Err(BadMagic) ==> PushStep(a, raw).0 == a
  {
    hide HighNibble, HasMore;
  }

  /** A report of less than three bytes after its report ID is refused without a trace. */
  lemma ShortIff(a: Asm, raw: seq<byte>)
    ensures PushStep(a, raw) == (a, Err(ShortFrame)) <==>
            |raw| < 3 || (|raw| == 3 && raw[0] == 0x00 && raw[1] == 0x21)
  {
    hide HighNibble, HasMore;
  }

  /** Every report is foreign, short or opens with the magic byte. */
  lemma ReportKinds(raw: seq<byte>) returns (p: seq<byte>)
    requires |raw| >= 3 && (raw[0] == 0x21 || (raw[0] == 0x00 && raw[1] == 0x21)) && (|raw| == 3 ==> raw[0] == 0x21)
    ensures IsReport(raw, p)
  {
    p := if raw[0] == 0x21 then raw else raw[1..];
  }

  /** A busy report only counts, and fails only when the count is at its limit. */
  lemma BusyIff(a: Asm, raw: seq<byte>, p: seq<byte>)
    requires IsReport(raw, p)
    ensures IsBusy(raw) <==> 0xC0 <= p[1] < 0xD0
    ensures 0xC0 <= p[1] < 0xD0 ==>
              PushStep(a, raw) ==
              if a.busyRetries == 0xFFFF_FFFF then (a, Err(BusyOverflow))
              else (a.(busyRetries := a.busyRetries + 1), Ok(Busy(a.busyRetries + 1)))
  {
    ReportPayload(raw, p);
  }

  /** A data report is refused for its index, then for its length, then for missing bytes, and in no other case. */
  lemma RefusedIff(a: Asm, raw: seq<byte>, p: seq<byte>)
    requires IsReport(raw, p) && !(0xC0 <= p[1] < 0xD0)
    ensures var (b, r) := PushStep(a, raw); var counted := a.(busyRetries := 0, received := (a.received + 1) % 0x100);
            if p[1] % 16 != a.received % 16
            then b == a.(busyRetries := 0) && r == Err(OutOfSequence(a.received % 16, p[1] % 16))
            else if p[2] > 61 then b == counted && r == Err(ChunkTooLong(p[2]))
            else if 3 + p[2] > |p| then b == counted && r == Err(ShortFrame)
            else r.Ok?
  {
    hide HasMore;
    ReportPayload(raw, p);
    BusyIff(a, raw, p);
  }

  /** The whole of an accepted data report: its chunk is appended, its flag decides whether the message ends. */
  lemma AcceptedIff(a: Asm, raw: seq<byte>, chunk: seq<byte>, last: bool)
    ensures PushStep(a, raw) ==
              (Asm(a.buf + chunk, (a.received + 1) % 0x100, 0, a.done || last), Ok(if last then Done else NeedMore)) <==>
            exists flags: byte, rest: seq<byte> ::
              CarriesData(raw, flags, chunk, rest) && flags % 16 == a.received % 16 && (last <==> flags / 0x20 % 2 == 0)
  {
    hide CarriesData, IsBusy, HighNibble;
    if flags: byte, rest: seq<byte> :|
      CarriesData(raw, flags, chunk, rest) && flags % 16 == a.received % 16 && (last <==> flags / 0x20 % 2 == 0)
    {
      CarriedIsPushed(a, raw, flags, chunk, rest);
    }
    if PushStep(a, raw) == (Asm(a.buf + chunk, (a.received + 1) % 0x100, 0, a.done || last), Ok(if last then Done else NeedMore)) {
      var flags, c, rest := PushedIsCarried(a, raw);
      assert c == (a.buf + chunk)[|a.buf|..] == chunk;
    }
  }

  lemma CarriedIsPushed(a: Asm, raw: seq<byte>, flags: byte, chunk: seq<byte>, rest: seq<byte>)
    requires CarriesData(raw, flags, chunk, rest) && flags % 16 == a.received % 16
    ensures var last := flags / 0x20 % 2 == 0;
            PushStep(a, raw) ==
            (Asm(a.buf + chunk, (a.received + 1) % 0x100, 0, a.done || last), Ok(if last then Done else NeedMore))
  {
    var p := DataReport(flags, chunk, rest);
    ReportPayload(raw, p);
    BusyIff(a, raw, p);
    FlagOfNibble(flags);
    assert p[3..3 + |chunk|] == chunk;
    hide IsBusy, HighNibble;
  }

  lemma FlagOfNibble(flags: byte)
    ensures HasMore(HighNibble(flags)) <==> flags / 0x20 % 2 == 1
  {
    assert flags / 0x20 == flags / 16 / 2;
  }

  lemma PushedIsCarried(a: Asm, raw: seq<byte>) returns (flags: byte, chunk: seq<byte>, rest: seq<byte>)
    requires PushStep(a, raw).1.Ok? && !PushStep(a, raw).1.value.Busy?
    ensures CarriesData(raw, flags, chunk, rest) && flags % 16 == a.received % 16
    ensures PushStep(a, raw).0.buf == a.buf + chunk
    ensures PushStep(a, raw).1 == Ok(if flags / 0x20 % 2 == 0 then Done else NeedMore)
  {
    ForeignIff(a, raw);
    ShortIff(a, raw);
    var p := ReportKinds(raw);
    ReportPayload(raw, p);
    BusyIff(a, raw, p);
    RefusedIff(a, raw, p);
    FlagOfNibble(p[1]);
    flags, chunk, rest := p[1], p[3..3 + p[2]], p[3 + p[2]..];
    hide IsBusy, HighNibble;
    assert p == DataReport(flags, chunk, rest);
  }

  // -------------------------------------------------------------- whole runs

  /** Where a run of the receive loop stands. Any error ends it. */
  datatype Progress = Reading(asm: Asm) | Complete(asm: Asm) | Failed(error: FrameError)

  function Feed(a: Asm, raws: seq<seq<byte>>): Progress
    decreases raws
  {
    if raws == [] then Reading(a)
    else
      var (b, r) := PushStep(a, raws[0]);
      match r
      case Err(e) => Failed(e)
      case Ok(Done) => Complete(b)
      case Ok(_) => Feed(b, raws[1..])
  }

  /** The report as sent, or without its leading report-ID byte. */
  predicate IsReportOf(raw: seq<byte>, frame: seq<byte>) {
    raw == frame || (frame != [] && raw == frame[1..])
  }

  /**
   `raws` delivers the frames of `msg` from index `k` on, in order, with busy reports
   inserted anywhere before the last one; `run` busy reports have just been seen.
   */
  ghost predicate Delivery(msg: seq<byte>, k: nat, run: u32, raws: seq<seq<byte>>)
    decreases raws
  {
    if k >= FrameCount(msg) then raws == []
    else if raws == [] then false
    else if IsBusy(raws[0]) then run < U32_MAX && Delivery(msg, k, run + 1, raws[1..])
    else IsReportOf(raws[0], FrameAt(msg, k)) && Delivery(msg, k + 1, 0, raws[1..])
  }

  lemma AsSent(frame: seq<byte>)
    ensures IsReportOf(frame, frame)
  {
  }

  lemma PushBusy(a: Asm, raw: seq<byte>)
    requires IsBusy(raw)
    ensures PushStep(a, raw) ==
      if a.busyRetries == U32_MAX then (a, Err(BusyOverflow))
      else (a.(busyRetries := a.busyRetries + 1), Ok(Busy(a.busyRetries + 1)))
  {
  }

  /** What the assembler does with frame `i` of a message, whatever it has seen before. */
  lemma PushFrame(msg: seq<byte>, i: nat, a: Asm, raw: seq<byte>)
    requires i < FrameCount(msg) && IsReportOf(raw, FrameAt(msg, i))
    ensures !IsBusy(raw)
    ensures PushStep(a, raw).1.Ok? <==> i % 16 == a.received % 16
    ensures PushStep(a, raw).1.Err? ==> PushStep(a, raw).1 == Err(OutOfSequence(a.received % 16, i % 16))
    ensures PushStep(a, raw).1.Ok? ==>
      PushStep(a, raw) ==
        (Asm(a.buf + msg[Carried(msg, i)..Carried(msg, i + 1)], (a.received + 1) % 0x100, 0,
             a.done || i + 1 == FrameCount(msg)),
         Ok(if i + 1 == FrameCount(msg) then Done else NeedMore))
  {
    var chunk := msg[Carried(msg, i)..Carried(msg, i + 1)];
    var more := i + 1 != FrameCount(msg);
    var flags: byte := (if more then 0x20 else 0x00) + i % 16;
    var p := DataReport(flags, chunk, Zeros(61 - |chunk|));
    FrameIsReport(msg, i, raw);
    FlagsOf(more, i % 16);
    hide PushStep, IsBusy, Payload, FrameAt, Carried, FrameCount, IsReportOf;
    BusyIff(a, raw, p);
    RefusedIff(a, raw, p);
    if i % 16 == a.received % 16 {
      CarriedIsPushed(a, raw, flags, chunk, Zeros(61 - |chunk|));
    }
  }

  /** A frame is a data report with its chunk, padded with zeros. */
  lemma FrameIsReport(msg: seq<byte>, i: nat, raw: seq<byte>)
    requires i < FrameCount(msg) && IsReportOf(raw, FrameAt(msg, i))
    ensures var chunk := msg[Carried(msg, i)..Carried(msg, i + 1)];
            |chunk| <= 61 &&
            var flags := (if i + 1 != FrameCount(msg) then 0x20 else 0x00) + i % 16;
            var p := DataReport(flags, chunk, Zeros(61 - |chunk|));
            IsReport(raw, p) && p[1] == flags && p[2] == |chunk| && |p| == 64 && CarriesData(raw, flags, chunk, Zeros(61 - |chunk|))
  {
    var chunk := msg[Carried(msg, i)..Carried(msg, i + 1)];
    var flags: byte := (if i + 1 != FrameCount(msg) then 0x20 else 0x00) + i % 16;
    var p := DataReport(flags, chunk, Zeros(61 - |chunk|));
    assert FrameAt(msg, i) == [0x00] + p;
    assert FrameAt(msg, i)[1..] == p;
  }

  lemma FlagsOf(more: bool, index: nat)
    requires index < 16
    ensures var flags := (if more then 0x20 else 0x00) + index;
            flags < 0xC0 && flags % 16 == index && (flags / 0x20 % 2 == 1 <==> more)
  {
  }

  /** The sequence check sees the count modulo 16, which the wrap at 256 preserves. */
  lemma CountWraps(received: byte, k: nat)
    requires received % 16 == k % 16
    ensures (received + 1) % 0x100 % 16 == (k + 1) % 16
  {
    var e, p, q := k % 16, received / 16, k / 16;
    assert received == 16 * p + e && k == 16 * q + e;
    var next: int := if received == 0xFF then 0 else received + 1;
    assert (received + 1) % 0x100 == next;
    if e == 15 {
      Slot(q + 1, 0);
      Slot(if received == 0xFF then 0 else p + 1, 0);
    } else {
      Slot(q, e + 1);
      Slot(p, e + 1);
    }
  }

  lemma Slot(q: int, e: int)
    requires 0 <= e < 16
    ensures (16 * q + e) % 16 == e
  {
  }

  lemma TrueCount(k: nat)
    ensures k % 0x100 % 16 == k % 16
    ensures (k % 0x100 + 1) % 0x100 == (k + 1) % 0x100
  {
    var q := k / 0x100;
    assert k == 0x100 * q + k % 0x100;
    assert k % 0x100 == 16 * (k % 0x100 / 16) + k % 0x100 % 16;
  }

  lemma SameSlot(k: nat, gap: nat)
    ensures (k + gap) % 16 == k % 16 <==> gap % 16 == 0
  {
  }

  /**
   The framing invariant over whole runs: an assembler that is about to accept an index
   congruent to `k` modulo 16 completes at the end of the delivery, having appended the
   bytes of the frames from `k` on.
   */
  lemma {:induction false} Resume(msg: seq<byte>, k: nat, a: Asm, raws: seq<seq<byte>>)
    requires k < FrameCount(msg) && a.received % 16 == k % 16
    requires Delivery(msg, k, a.busyRetries, raws)
    ensures Feed(a, raws).Complete? && Feed(a, raws).asm.done
    ensures Feed(a, raws).asm.buf == a.buf + msg[Carried(msg, k)..]
    decreases raws
  {
    hide FrameAt, FrameCount, Carried, PushStep, IsBusy, IsReportOf;
    var (b, r) := PushStep(a, raws[0]);
    if IsBusy(raws[0]) {
      PushBusy(a, raws[0]);
      Resume(msg, k, b, raws[1..]);
    } else {
      PushFrame(msg, k, a, raws[0]);
      ChunksConcatenate(msg, k);
      if k + 1 < FrameCount(msg) {
        CountWraps(a.received, k);
        Resume(msg, k + 1, b, raws[1..]);
      }
    }
  }

  /** ... and not a report earlier. */
  lemma {:induction false} NotBeforeTheEnd(msg: seq<byte>, k: nat, a: Asm, raws: seq<seq<byte>>, j: nat)
    requires k < FrameCount(msg) && a.received % 16 == k % 16
    requires Delivery(msg, k, a.busyRetries, raws) && j < |raws|
    ensures Feed(a, raws[..j]).Reading?
    decreases raws
  {
    hide FrameAt, FrameCount, Carried, PushStep, IsBusy, IsReportOf;
    if j > 0 {
      var (b, r) := PushStep(a, raws[0]);
      assert raws[..j][1..] == raws[1..][..j - 1];
      if IsBusy(raws[0]) {
        PushBusy(a, raws[0]);
        NotBeforeTheEnd(msg, k, b, raws[1..], j - 1);
      } else {
        PushFrame(msg, k, a, raws[0]);
        CountWraps(a.received, k);
        NotBeforeTheEnd(msg, k + 1, b, raws[1..], j - 1);
      }
    }
  }

  /** Every message survives framing, whatever busy reports are mixed in. */
  lemma FramingRoundTrip(msg: seq<byte>, raws: seq<seq<byte>>)
    requires Delivery(msg, 0, 0, raws)
    ensures Feed(NEW_ASM, raws).Complete? && Feed(NEW_ASM, raws).asm.buf == msg
    ensures forall j :: 0 <= j < |raws| ==> Feed(NEW_ASM, raws[..j]).Reading?
  {
    Resume(msg, 0, NEW_ASM, raws);
    forall j | 0 <= j < |raws|
      ensures Feed(NEW_ASM, raws[..j]).Reading?
    {
      NotBeforeTheEnd(msg, 0, NEW_ASM, raws, j);
    }
  }

  /** The frames as sent, from index `k` on, are a delivery. */
  lemma {:induction false} SentIsDelivery(msg: seq<byte>, k: nat)
    requires k <= FrameCount(msg)
    ensures Delivery(msg, k, 0, SendFrames(msg)[k..])
    decreases FrameCount(msg) - k
  {
    hide FrameAt, PushStep, IsBusy;
    if k < FrameCount(msg) {
      var raws := SendFrames(msg)[k..];
      assert raws[0] == FrameAt(msg, k) && raws[1..] == SendFrames(msg)[k + 1..];
      PushFrame(msg, k, NEW_ASM, raws[0]);
      SentIsDelivery(msg, k + 1);
    }
  }

  // ------------------------------------------- loss, repetition, reordering

  /** Report `raw` carries a frame whose index is less than 16 away from `expected`. */
  ghost predicate InWindow(msg: seq<byte>, expected: nat, raw: seq<byte>) {
    exists i: nat :: i < FrameCount(msg) && -16 < i - expected < 16 && IsReportOf(raw, FrameAt(msg, i))
  }

  /** Any frames at all, each within the window of the number of data frames before it. */
  ghost predicate Windowed(msg: seq<byte>, expected: nat, raws: seq<seq<byte>>)
    decreases raws
  {
    raws == [] ||
    if IsBusy(raws[0]) then Windowed(msg, expected, raws[1..])
    else InWindow(msg, expected, raws[0]) && Windowed(msg, expected + 1, raws[1..])
  }

  lemma SameInWindow(i: nat, k: nat)
    requires -16 < i - k < 16 && i % 16 == k % 16
    ensures i == k
  {
  }

  /**
   Loss, repetition and reordering within the window never corrupt: the buffer stays a
   prefix of the message cut at a frame boundary, completion means the whole message, and
   the only errors are a detected gap or the retry counter.
   */
  lemma {:induction false} WindowNeverCorrupts(msg: seq<byte>, k: nat, a: Asm, raws: seq<seq<byte>>)
    requires k < FrameCount(msg) && a.buf == msg[..Carried(msg, k)] && a.received == k % 0x100
    requires Windowed(msg, k, raws)
    ensures match Feed(a, raws)
            case Reading(b) => exists j: nat :: k <= j < FrameCount(msg) && b.buf == msg[..Carried(msg, j)]
            case Complete(b) => b.buf == msg
            case Failed(e) => e.OutOfSequence? || e.BusyOverflow?
    decreases raws
  {
    hide FrameAt, FrameCount, Carried, PushStep, IsBusy, IsReportOf;
    if raws != [] {
      var (b, r) := PushStep(a, raws[0]);
      if IsBusy(raws[0]) {
        PushBusy(a, raws[0]);
        if r.Ok? {
          WindowNeverCorrupts(msg, k, b, raws[1..]);
        }
      } else {
        var i: nat :| i < FrameCount(msg) && -16 < i - k < 16 && IsReportOf(raws[0], FrameAt(msg, i));
        PushFrame(msg, i, a, raws[0]);
        if r.Ok? {
          TrueCount(k);
          SameInWindow(i, k);
          ChunksConcatenate(msg, k);
          if k + 1 < FrameCount(msg) {
            WindowNeverCorrupts(msg, k + 1, b, raws[1..]);
          } else {
            assert b.buf == msg;
          }
        }
      }
    }
  }

  /** The first `k` frames leave an undamaged, unfinished assembler. */
  lemma {:induction false} FeedPrefix(msg: seq<byte>, k: nat, more: seq<seq<byte>>, n: nat)
    requires n <= k < FrameCount(msg)
    ensures var a := Asm(msg[..Carried(msg, n)], n % 0x100, 0, false);
            var b := Asm(msg[..Carried(msg, k)], k % 0x100, 0, false);
            Feed(a, SendFrames(msg)[n..k] + more) == Feed(b, more)
    decreases k - n
  {
    hide FrameAt, FrameCount, Carried, PushStep, IsBusy, IsReportOf;
    var raws := SendFrames(msg)[n..k] + more;
    if n == k {
      assert raws == more;
    } else {
      var a := Asm(msg[..Carried(msg, n)], n % 0x100, 0, false);
      assert raws[0] == FrameAt(msg, n);
      assert raws[1..] == SendFrames(msg)[n + 1..k] + more;
      AsSent(FrameAt(msg, n));
      PushFrame(msg, n, a, raws[0]);
      ChunksConcatenate(msg, n);
      TrueCount(n);
      FeedPrefix(msg, k, more, n + 1);
    }
  }

  /**
   Outside the window the check is blind exactly at multiples of 16: losing the frames
   `k..k + gap` goes unnoticed if and only if `gap` is a multiple of 16, and then the
   message is delivered as complete with those bytes missing.
   */
  lemma LossUnnoticedIffMultipleOf16(msg: seq<byte>, k: nat, gap: nat)
    requires k + gap < FrameCount(msg)
    ensures var run := Feed(NEW_ASM, SendFrames(msg)[..k] + SendFrames(msg)[k + gap..]);
            if gap % 16 == 0
            then run.Complete? && run.asm.buf == msg[..Carried(msg, k)] + msg[Carried(msg, k + gap)..]
            else run == Failed(OutOfSequence(k % 16, (k + gap) % 16))
  {
    hide FrameAt, FrameCount, Carried, PushStep, IsBusy, IsReportOf;
    var later := SendFrames(msg)[k + gap..];
    var b := Asm(msg[..Carried(msg, k)], k % 0x100, 0, false);
    assert SendFrames(msg)[..k] == SendFrames(msg)[0..k];
    FeedPrefix(msg, k, later, 0);
    assert later[0] == FrameAt(msg, k + gap);
    AsSent(FrameAt(msg, k + gap));
    PushFrame(msg, k + gap, b, later[0]);
    ChunksConcatenate(msg, 0);
    TrueCount(k);
    SameSlot(k, gap);
    if gap % 16 == 0 {
      SentIsDelivery(msg, k + gap);
      Resume(msg, k + gap, b, later);
    }
  }

  lemma PushGrowth(a: Asm, raw: seq<byte>)
    ensures PushStep(a, raw).1.Ok? ==>
              a.buf <= PushStep(a, raw).0.buf && |PushStep(a, raw).0.buf| <= |a.buf| + MAX_CHUNK
  {
    hide HighNibble, HasMore;
  }

  /** Whatever arrives, each report adds at most 61 bytes and nothing received is ever changed. */
  lemma {:induction false} BoundedGrowth(a: Asm, raws: seq<seq<byte>>)
    ensures !Feed(a, raws).Failed? ==>
              a.buf <= Feed(a, raws).asm.buf && |Feed(a, raws).asm.buf| <= |a.buf| + MAX_CHUNK * |raws|
    decreases raws
  {
    hide PushStep;
    if raws != [] {
      PushGrowth(a, raws[0]);
      BoundedGrowth(PushStep(a, raws[0]).0, raws[1..]);
    }
  }

  /** What a report adds to the message: nothing if it is busy, else its chunk. */
  ghost predicate Brings(raw: seq<byte>, chunk: seq<byte>) {
    (chunk == [] && exists p :: IsReport(raw, p) && 0xC0 <= p[1] < 0xD0) ||
    exists flags: byte, rest: seq<byte> :: CarriesData(raw, flags, chunk, rest)
  }

  function Flat(chunks: seq<seq<byte>>): seq<byte> {
    if chunks == [] then [] else chunks[0] + Flat(chunks[1..])
  }

  /** Whatever arrives, in a run that has not failed every report is busy or data and the buffer is what they bring. */
  lemma {:induction false} BufferIsChunks(a: Asm, raws: seq<seq<byte>>) returns (chunks: seq<seq<byte>>)
    requires !Feed(a, raws).Failed?
    ensures |chunks| <= |raws| && (Feed(a, raws).Reading? ==> |chunks| == |raws|)
    ensures forall i :: 0 <= i < |chunks| ==> Brings(raws[i], chunks[i])
    ensures Feed(a, raws).asm.buf == a.buf + Flat(chunks)
    decreases raws
  {
    hide PushStep, Brings;
    chunks := [];
    if raws == [] {
      assert a.buf + [] == a.buf;
    } else {
      var (b, r) := PushStep(a, raws[0]);
      var chunk := OneBrings(a, raws[0]);
      if !r.value.Done? {
        chunks := BufferIsChunks(b, raws[1..]);
      } else {
        assert chunk + [] == chunk;
      }
      assert ([chunk] + chunks)[1..] == chunks;
      assert a.buf + (chunk + Flat(chunks)) == a.buf + chunk + Flat(chunks);
      chunks := [chunk] + chunks;
    }
  }

  lemma OneBrings(a: Asm, raw: seq<byte>) returns (chunk: seq<byte>)
    requires PushStep(a, raw).1.Ok?
    ensures Brings(raw, chunk) && PushStep(a, raw).0.buf == a.buf + chunk
  {
    if PushStep(a, raw).1.value.Busy? {
      ForeignIff(a, raw);
      ShortIff(a, raw);
      var p := ReportKinds(raw);
      RefusedOrBusy(a, raw, p);
      chunk := [];
      assert a.buf + [] == a.buf;
    } else {
      hide PushStep;
      var flags, rest;
      flags, chunk, rest := PushedIsCarried(a, raw);
    }
  }

  lemma RefusedOrBusy(a: Asm, raw: seq<byte>, p: seq<byte>)
    requires IsReport(raw, p) && PushStep(a, raw).1.Ok? && PushStep(a, raw).1.value.Busy?
    ensures 0xC0 <= p[1] < 0xD0 && PushStep(a, raw).0.buf == a.buf
  {
    ReportPayload(raw, p);
    BusyIff(a, raw, p);
    hide HighNibble, HasMore;
  }

  /** How many of the reports are not busy. */
  function DataCount(raws: seq<seq<byte>>): nat {
    if raws == [] then 0 else (if IsBusy(raws[0]) then 0 else 1) + DataCount(raws[1..])
  }

  lemma PushCounts(a: Asm, raw: seq<byte>)
    requires PushStep(a, raw).1.Ok?
    ensures PushStep(a, raw).1.value.Busy? <==> IsBusy(raw)
    ensures PushStep(a, raw).0.received == if IsBusy(raw) then a.received else (a.received + 1) % 0x100
  {
    hide HighNibble, HasMore;
  }

  /** The counter is the number of data reports modulo 256, after runs of any length. */
  lemma {:induction false} CountsDataReports(a: Asm, raws: seq<seq<byte>>)
    requires Feed(a, raws).Reading?
    ensures Feed(a, raws).asm.received == (a.received + DataCount(raws)) % 0x100
    decreases raws
  {
    hide PushStep, IsBusy;
    if raws != [] {
      PushCounts(a, raws[0]);
      CountsDataReports(PushStep(a, raws[0]).0, raws[1..]);
      AddModulo(a.received, DataCount(raws[1..]));
    }
  }

  lemma AddModulo(received: byte, n: nat)
    ensures ((received + 1) % 0x100 + n) % 0x100 == (received + (1 + n)) % 0x100
  {
    if received == 0xFF {
      var q := n / 0x100;
      assert received + (1 + n) == 0x100 * (q + 1) + n % 0x100;
    }
  }

  // ------------------------------------------------------------ busy streaks

  /** The length of the streak of busy reports that ends `raws`. */
  function Streak(raws: seq<seq<byte>>): nat {
    if raws == [] || !IsBusy(raws[|raws| - 1]) then 0 else 1 + Streak(raws[..|raws| - 1])
  }
}
