/**
 The management session over either transport. The transport is a link that answers each
 command in turn; the log of exchanges is what a session's effect is stated about.
 */
module Session {
  import opened Bytes
  import opened Proto
  import opened Entry
  import opened Crypto
  import opened Errors

  datatype Exchange = Exchange(apdu: seq<byte>, detectButtonWait: bool, reply: Response)

  class Link {
    var replies: seq<Response>
    var log: seq<Exchange>

    constructor (answers: seq<Response>)
      ensures replies == answers && log == []
    {
      replies, log := answers, [];
    }

    /** One command and its answer; a link with no answers left is down. */
    method Transmit(apdu: seq<byte>, detectButtonWait: bool) returns (r: Response)
      modifies this
      ensures log == old(log) + [Exchange(apdu, detectButtonWait, r)]
      ensures if old(replies) == [] then r == Err(Transport) && replies == []
              else r == old(replies)[0] && replies == old(replies)[1..]
    {
      if replies == [] {
        r := Err(Transport);
      } else {
        r := replies[0];
        replies := replies[1..];
      }
      log := log + [Exchange(apdu, detectButtonWait, r)];
    }
  }

  // ------------------------------------------- what each operation exchanges

  /** The answer's data, if the status word is 9000. */
  function Checked(reply: Response): Result<seq<byte>, Error> {
    match reply
    case Err(e) => Err(e)
    case Ok((data, sw)) =>
      match CheckSw(sw)
      case Err(e) => Err(Applet(e))
      case Ok(_) => Ok(data)
  }

  function Acknowledged(reply: Response): Result<(), Error> {
    match Checked(reply)
    case Err(e) => Err(e)
    case Ok(_) => Ok(())
  }

  ghost function PageOf(reply: Response): Result<EnumPage, Error> {
    match Checked(reply)
    case Err(e) => Err(e)
    case Ok(data) =>
      match ReadPage(data)
      case Err(x) => Err(Parse(x))
      case Ok(page) => Ok(page)
  }

  /** Every answer is a page that announces more. */
  ghost predicate AllMore(log: seq<Exchange>) {
    forall j :: 0 <= j < |log| ==> PageOf(log[j].reply).Ok? && PageOf(log[j].reply).value.morePages
  }

  /** The entries of the pages answered, in order. */
  ghost function EntriesOf(log: seq<Exchange>): seq<Entry> {
    if log == [] then []
    else
      var n := |log| - 1;
      EntriesOf(log[..n]) + PageEntries(log[n].reply)
  }

  ghost function PageEntries(reply: Response): seq<Entry> {
    match PageOf(reply)
    case Err(_) => []
    case Ok(page) => page.entries
  }

  ghost predicate IsEmptyToken(reply: Response) {
    reply.Ok? && CheckSw(reply.value.1) == Err(EntryNotFound)
  }

  /** Every exchange after the first asks to continue, with the same time. */
  ghost predicate ContinuesAt(timestamp: u64, log: seq<Exchange>) {
    forall j :: 0 <= j < |log| ==> log[j].apdu == EnumContinueApdu(timestamp) && !log[j].detectButtonWait
  }

  ghost predicate Enumerated(timestamp: u64, log: seq<Exchange>, r: Result<seq<Entry>, Error>) {
    && log != []
    && log[0].apdu == EnumAllApdu(timestamp) && !log[0].detectButtonWait
    && ContinuesAt(timestamp, log[1..])
    && if IsEmptyToken(log[0].reply) then |log| == 1 && r == Ok([])
       else
         var n := |log| - 1;
         && AllMore(log[..n])
         && match PageOf(log[n].reply)
            case Err(e) => r == Err(e)
            case Ok(page) => !page.morePages && r == Ok(EntriesOf(log))
  }

  ghost predicate ReadEntryDone(timestamp: u64, app: seq<byte>, account: seq<byte>, log: seq<Exchange>, r: Result<Entry, Error>) {
    if !ValidNames(app, account) then log == [] && r == Err(Parse(Invalid))
    else
      && |log| == 1
      && log[0].apdu == Apdu(ENUM_CODES, ReadBody(timestamp, app, account)) && log[0].detectButtonWait
      && match Checked(log[0].reply)
         case Err(e) => r == Err(e)
         case Ok(data) =>
           match ReadOne(data)
           case Err(x) => r == Err(Parse(x))
           case Ok(e) => r == Ok(e)
  }

  /** A sealed command: fetch the device's key, then send the sealed clear text. */
  ghost predicate Sealed(p: Primitives, secret: nat, c: Command, log: seq<Exchange>, r: Result<(), Error>) {
    if !ValidCommand(c) then log == [] && r == Err(Parse(Invalid))
    else
      && log != []
      && log[0].apdu == GET_PUBKEY && !log[0].detectButtonWait
      && match Checked(log[0].reply)
         case Err(e) => |log| == 1 && r == Err(e)
         case Ok(devicePub) =>
           match Seal(p, secret, devicePub, ClearText(c))
           case Err(e) => |log| == 1 && r == Err(Encrypt(e))
           case Ok(blob) =>
             && |log| == 2 && |blob| <= 0xFFFF
             && log[1].apdu == Apdu(WRITE_SEED, blob) && !log[1].detectButtonWait
             && r == Acknowledged(log[1].reply)
  }

  ghost predicate Erased(log: seq<Exchange>, r: Result<(), Error>) {
    |log| == 1 && log[0].apdu == ERASE_ALL && log[0].detectButtonWait && r == Acknowledged(log[0].reply)
  }

  lemma FirstPage(log: seq<Exchange>)
    requires |log| == 1
    ensures AllMore(log[..0])
    ensures PageOf(log[0].reply).Ok? ==> EntriesOf(log) == PageOf(log[0].reply).value.entries
  {
    if PageOf(log[0].reply).Ok? {
      var es := PageOf(log[0].reply).value.entries;
      assert [] + es == es;
    }
  }

  lemma AllPagesMore(log: seq<Exchange>)
    requires log != [] && AllMore(log[..|log| - 1])
    requires PageOf(log[|log| - 1].reply).Ok? && PageOf(log[|log| - 1].reply).value.morePages
    ensures AllMore(log)
  {
    hide PageOf;
    var n := |log| - 1;
    forall j | 0 <= j < |log|
      ensures PageOf(log[j].reply).Ok? && PageOf(log[j].reply).value.morePages
    {
      assert j < n ==> log[..n][j] == log[j];
    }
  }

  lemma EntriesOfAppend(log: seq<Exchange>, x: Exchange)
    ensures EntriesOf(log + [x]) == EntriesOf(log) + PageEntries(x.reply)
  {
    hide PageEntries;
    assert (log + [x])[..|log|] == log;
  }

  /** The page in an answer. */
  method PageFrom(reply: Response) returns (r: Result<EnumPage, Error>)
    ensures r == PageOf(reply) && (reply.Err? ==> r.Err?)
  {
    if reply.Err? {
      return Err(reply.error);
    }
    var ok := CheckSw(reply.value.1);
    if ok.Err? {
      return Err(Applet(ok.error));
    }
    var parsed := ParseEnumPage(reply.value.0);
    if parsed.Err? {
      return Err(Parse(parsed.error));
    }
    r := Ok(parsed.value);
  }

  // ------------------------------------------------ outcomes over any link

  /** Data is taken from an answer exactly when its status is 9000; every other outcome is its own error. */
  lemma CheckedIff(reply: Response, data: seq<byte>)
    ensures Checked(reply) == Ok(data) <==> reply == Ok((data, 0x9000))
    ensures reply.Err? ==> Checked(reply) == Err(reply.error)
    ensures reply.Ok? && reply.value.1 != 0x9000 ==>
              Checked(reply).Err? && CheckSw(reply.value.1).Err? &&
              Checked(reply) == Err(Applet(CheckSw(reply.value.1).error))
    ensures Acknowledged(reply).Ok? <==> reply.Ok? && reply.value.1 == 0x9000
    ensures Acknowledged(reply).Err? ==> Checked(reply).Err? && Acknowledged(reply).error == Checked(reply).error
  {
  }

  /** The answer is a page: status 9000 and the encoding of at least one well-formed record. */
  ghost predicate AnswersPage(reply: Response, page: EnumPage) {
    page.entries != [] && AllWellFormed(page.entries) && reply == Ok((EncodePage(page), 0x9000))
  }

  ghost predicate NoPage(reply: Response) {
    forall page :: !AnswersPage(reply, page)
  }

  lemma PageOfIff(reply: Response, page: EnumPage)
    ensures PageOf(reply) == Ok(page) <==> AnswersPage(reply, page)
  {
    hide ReadPage, EncodePage, AllWellFormed, CheckSw;
    if reply.Ok? {
      CheckedIff(reply, reply.value.0);
      PageIff(reply.value.0, page);
    }
  }

  /** An answer of status 9000 that is no page is a parse error, and every other answer its own error. */
  lemma NoPageOf(reply: Response)
    requires NoPage(reply)
    ensures PageOf(reply).Err?
    ensures reply.Err? ==> PageOf(reply) == Err(reply.error)
    ensures reply.Ok? && reply.value.1 == 0x9000 ==> PageOf(reply).error.Parse?
    ensures reply.Ok? && reply.value.1 != 0x9000 ==> PageOf(reply).error.Applet?
  {
    hide ReadPage, EncodePage, AnswersPage;
    if PageOf(reply).Ok? {
      PageOfIff(reply, PageOf(reply).value);
    }
    if reply.Ok? {
      CheckedIff(reply, reply.value.0);
    }
  }

  /** The records of all pages, end to end. */
  function RecordsOf(pages: seq<EnumPage>): seq<Entry> {
    if pages == [] then [] else RecordsOf(pages[..|pages| - 1]) + pages[|pages| - 1].entries
  }

  /** The answers of a log are these pages, and only the last does not announce more. */
  ghost predicate AnsweredBy(log: seq<Exchange>, pages: seq<EnumPage>) {
    |pages| == |log| &&
    forall j :: 0 <= j < |log| ==> AnswersPage(log[j].reply, pages[j]) && (pages[j].morePages <==> j + 1 < |log|)
  }

  ghost function PagesIn(log: seq<Exchange>): (pages: seq<EnumPage>)
    requires forall j :: 0 <= j < |log| ==> PageOf(log[j].reply).Ok?
    ensures |pages| == |log|
  {
    seq(|log|, j requires 0 <= j < |log| => PageOf(log[j].reply).value)
  }

  lemma {:induction false} EntriesAreRecords(log: seq<Exchange>)
    requires forall j :: 0 <= j < |log| ==> PageOf(log[j].reply).Ok?
    ensures EntriesOf(log) == RecordsOf(PagesIn(log))
  {
    hide PageOf;
    if log != [] {
      var n := |log| - 1;
      EntriesAreRecords(log[..n]);
      assert PagesIn(log)[..n] == PagesIn(log[..n]);
    }
  }

  /**
   Over any link: an enumeration that is not told the token is empty succeeds exactly when every
   answer is a well-formed page and only the last announces no more, and then it is the
   records of these pages end to end.
   */
  lemma EnumeratedIff(timestamp: u64, log: seq<Exchange>, r: Result<seq<Entry>, Error>, es: seq<Entry>)
    requires Enumerated(timestamp, log, r) && !ReportsEmpty(log[0].reply)
    ensures r == Ok(es) <==> exists pages :: AnsweredBy(log, pages) && es == RecordsOf(pages)
  {
    hide PageOf, EntriesOf, AnswersPage, EnumAllApdu, EnumContinueApdu;
    var n := |log| - 1;
    EmptyReport(log[0].reply);
    if r == Ok(es) {
      forall j | 0 <= j < |log|
        ensures PageOf(log[j].reply).Ok? && (PageOf(log[j].reply).value.morePages <==> j + 1 < |log|)
        ensures AnswersPage(log[j].reply, PageOf(log[j].reply).value)
      {
        assert j < n ==> log[..n][j] == log[j];
        PageOfIff(log[j].reply, PageOf(log[j].reply).value);
      }
      EntriesAreRecords(log);
      assert AnsweredBy(log, PagesIn(log));
    }
    if pages :| AnsweredBy(log, pages) && es == RecordsOf(pages) {
      forall j | 0 <= j < |log|
        ensures PageOf(log[j].reply) == Ok(pages[j])
      {
        PageOfIff(log[j].reply, pages[j]);
      }
      EntriesAreRecords(log);
      assert PagesIn(log) == pages;
    }
  }

  /** 6A80 and 6A83, and these only, say that the token is empty. */
  predicate ReportsEmpty(reply: Response) {
    reply.Ok? && (reply.value.1 == 0x6A80 || reply.value.1 == 0x6A83)
  }

  lemma EmptyReport(reply: Response)
    ensures IsEmptyToken(reply) <==> ReportsEmpty(reply)
  {
  }

  /**
   Over any link: an enumeration told at once that the token is empty is the empty list; a failed
   one ends at its first answer that is no page, after pages that announce more, with that
   answer's error.
   */
  lemma EnumerationEnds(timestamp: u64, log: seq<Exchange>, r: Result<seq<Entry>, Error>)
    requires Enumerated(timestamp, log, r)
    ensures ReportsEmpty(log[0].reply) ==> |log| == 1 && r == Ok([])
    ensures r.Err? ==>
              NoPage(log[|log| - 1].reply) && r.error == EndError(log[|log| - 1].reply) &&
              forall j :: 0 <= j < |log| - 1 ==> exists page :: AnswersPage(log[j].reply, page) && page.morePages
  {
    hide PageOf, EntriesOf, AnswersPage, EnumAllApdu, EnumContinueApdu, EndError;
    EmptyReport(log[0].reply);
    if r.Err? {
      var n := |log| - 1;
      forall page
        ensures !AnswersPage(log[n].reply, page)
      {
        PageOfIff(log[n].reply, page);
      }
      EndErrorIs(log[n].reply);
      forall j | 0 <= j < n
        ensures exists page :: AnswersPage(log[j].reply, page) && page.morePages
      {
        assert log[..n][j] == log[j];
        PageOfIff(log[j].reply, PageOf(log[j].reply).value);
      }
    }
  }

  /** The error of an answer that is no page: the link's, the status word's, or that of the parser. */
  ghost function EndError(reply: Response): Error {
    match reply
    case Err(e) => e
    case Ok((data, sw)) =>
      if sw != 0x9000 then Applet(StatusError(sw))
      else Parse(if ReadPage(data).Err? then ReadPage(data).error else Malformed)
  }

  lemma EndErrorIs(reply: Response)
    requires PageOf(reply).Err?
    ensures PageOf(reply).error == EndError(reply)
  {
    hide ReadPage;
  }

  /** Over any link: a read returns a record exactly when status 9000 comes with data that starts with its encoding. */
  lemma ReadIff(timestamp: u64, app: seq<byte>, account: seq<byte>, log: seq<Exchange>, r: Result<Entry, Error>, e: Entry)
    requires ReadEntryDone(timestamp, app, account, log, r) && ValidNames(app, account)
    ensures r == Ok(e) <==>
            WellFormed(e, true) && log[0].reply.Ok? && log[0].reply.value.1 == 0x9000 &&
            EncodeEntry(e, true) <= log[0].reply.value.0
    ensures log[0].reply.Err? ==> r == Err(log[0].reply.error)
    ensures log[0].reply.Ok? && log[0].reply.value.1 == 0x9000 && r.Err? ==>
              r == Err(Parse(if Fault(log[0].reply.value.0, true) then Malformed else Truncated))
    ensures log[0].reply.Ok? && log[0].reply.value.1 != 0x9000 ==>
              CheckSw(log[0].reply.value.1).Err? && r == Err(Applet(CheckSw(log[0].reply.value.1).error))
  {
    hide ReadOne, WellFormed, EncodeEntry, ReadBody, ValidNames, CheckSw, Fault;
    if log[0].reply.Ok? {
      CheckedIff(log[0].reply, log[0].reply.value.0);
      ReadOneIff(log[0].reply.value.0, e);
      ReadOneRefused(log[0].reply.value.0);
    } else {
      CheckedIff(log[0].reply, []);
    }
  }

  /** Over any link: a write or delete succeeds exactly when it is valid, the key is usable and both commands are answered 9000. */
  lemma SealedIff(p: Primitives, secret: nat, c: Command, log: seq<Exchange>, r: Result<(), Error>)
    requires Sealed(p, secret, c, log, r)
    ensures r.Ok? <==>
            ValidCommand(c) && |log| == 2 && log[0].reply.Ok? && log[0].reply.value.1 == 0x9000 &&
            |log[0].reply.value.0| == 64 && p.validPoint(log[0].reply.value.0) &&
            log[1].reply.Ok? && log[1].reply.value.1 == 0x9000
    ensures |log| == 2 ==>
              log[0].reply.Ok? && log[0].reply.value.1 == 0x9000 &&
              |log[0].reply.value.0| == 64 && p.validPoint(log[0].reply.value.0)
    ensures |log| == 1 && r == Err(Encrypt(BadDevicePubkey)) && log[0].reply.Ok? ==>
              |log[0].reply.value.0| != 64 || !p.validPoint(log[0].reply.value.0)
  {
    hide ValidCommand, ClearText, Pad;
    if ValidCommand(c) {
      SealIff(p, secret, if log[0].reply.Ok? then log[0].reply.value.0 else [], ClearText(c));
    }
  }

  /** The error of an answer that is not 9000: the link's, or that of the status word. */
  function Refusal(reply: Response): Option<Error> {
    match reply
    case Err(e) => Some(e)
    case Ok((_, sw)) => if sw == 0x9000 then None else Some(Applet(StatusError(sw)))
  }

  function StatusError(sw: u16): OtpError {
    if sw == 0x6A80 || sw == 0x6A83 then EntryNotFound
    else if sw == 0x6A84 then NotEnoughSpace
    else if sw == 0x6FF9 then ButtonPressRequired
    else if sw == 0x6A86 then HidNotSupported
    else BadStatusCode(sw)
  }

  lemma RefusalIs(reply: Response)
    ensures Acknowledged(reply) == match Refusal(reply) case None => Ok(()) case Some(e) => Err(e)
    ensures Refusal(reply).Some? ==> Checked(reply) == Err(Refusal(reply).value)
  {
  }

  /** Over any link: how a write or delete fails, at its validation, at the key, at the seal or at the change. */
  lemma SealedErrors(p: Primitives, secret: nat, c: Command, log: seq<Exchange>, r: Result<(), Error>)
    requires Sealed(p, secret, c, log, r) && r.Err?
    ensures !ValidCommand(c) ==> log == [] && r.error == Parse(Invalid)
    ensures ValidCommand(c) ==>
              log != [] &&
              if Refusal(log[0].reply).Some? then |log| == 1 && Refusal(log[0].reply) == Some(r.error)
              else if |log| == 1 then r.error == Encrypt(BadDevicePubkey)
              else |log| == 2 && Refusal(log[1].reply) == Some(r.error)
  {
    hide ValidCommand, ClearText, Pad, Seal, CheckSw, Refusal, Checked, Acknowledged;
    if ValidCommand(c) {
      RefusalIs(log[0].reply);
      CheckedData(log[0].reply);
      if |log| == 2 {
        RefusalIs(log[1].reply);
      }
    }
  }

  lemma CheckedData(reply: Response)
    ensures Refusal(reply).None? ==> Checked(reply).Ok?
  {
  }

  /** Over any link: an erase is one exchange, and its outcome that of the answer. */
  lemma ErasedExactly(log: seq<Exchange>, r: Result<(), Error>)
    requires Erased(log, r)
    ensures |log| == 1 && r == match Refusal(log[0].reply) case None => Ok(()) case Some(e) => Err(e)
  {
    RefusalIs(log[0].reply);
  }

  // ------------------------------------------------------------- the session

  class OtpSession {
    const transport: Link
    const primitives: Primitives

    constructor (link: Link, p: Primitives)
      ensures transport == link && primitives == p
    {
      transport, primitives := link, p;
    }

    method Enumerate(timestamp: u64) returns (r: Result<seq<Entry>, Error>)
      modifies transport
      ensures old(transport.log) <= transport.log
      ensures Enumerated(timestamp, transport.log[|old(transport.log)|..], r)
    {
      hide CheckSw, PageOf, AllMore, EntriesOf, Apdu, EnumAllBody, U64Be;
      ghost var before := transport.log;
      var first := BuildApdu(ENUM_CODES, EnumAllBody(timestamp));
      var reply := transport.Transmit(first, false);
      ghost var log := [Exchange(first, false, reply)];
      assert transport.log == before + log && transport.log[|before|..] == log;
      if reply.Ok? {
        var ok := CheckSw(reply.value.1);
        if ok.Err? && ok.error.EntryNotFound? {
          return Ok([]);
        }
      }
      FirstPage(log);
      var page :- PageFrom(reply);
      var entries := page.entries;
      while page.morePages
        invariant log != [] && transport.log == before + log
        invariant log[0] == Exchange(EnumAllApdu(timestamp), false, reply)
        invariant ContinuesAt(timestamp, log[1..])
        invariant AllMore(log[..|log| - 1])
        invariant PageOf(log[|log| - 1].reply) == Ok(page)
        invariant entries == EntriesOf(log)
        decreases |transport.replies|
      {
        var cont := BuildApdu(ENUM_CODES_CONTINUE, U64Be(timestamp));
        var answer := transport.Transmit(cont, false);
        AllPagesMore(log);
        ghost var earlier := log;
        log := earlier + [Exchange(cont, false, answer)];
        assert log[..|earlier|] == earlier && log[1..] == earlier[1..] + [Exchange(cont, false, answer)];
        assert transport.log == before + log && transport.log[|before|..] == log;
        page :- PageFrom(answer);
        EntriesOfAppend(earlier, Exchange(cont, false, answer));
        entries := entries + page.entries;
      }
      assert transport.log[|before|..] == log;
      r := Ok(entries);
    }

    method ReadEntry(timestamp: u64, appName: seq<byte>, accountName: seq<byte>) returns (r: Result<Entry, Error>)
      modifies transport
      ensures old(transport.log) <= transport.log
      ensures ReadEntryDone(timestamp, appName, accountName, transport.log[|old(transport.log)|..], r)
    {
      var body := SerializeReadEntry(timestamp, appName, accountName);
      if body.Err? {
        return Err(Parse(body.error));
      }
      assert |body.value| <= 139;
      var apdu := BuildApdu(ENUM_CODES, body.value);
      var reply := transport.Transmit(apdu, true);
      assert transport.log[|old(transport.log)|..] == [Exchange(apdu, true, reply)];
      if reply.Err? {
        return Err(reply.error);
      }
      var checked := CheckSw(reply.value.1);
      if checked.Err? {
        return Err(Applet(checked.error));
      }
      var parsed := ParseReadOne(reply.value.0);
      if parsed.Err? {
        return Err(Parse(parsed.error));
      }
      r := Ok(parsed.value);
    }

    /** Fetches the device's key and seals the clear text for it. */
    method SealFor(secret: nat, clear: seq<byte>) returns (r: Result<seq<byte>, Error>)
      requires KeepsLength(primitives)
      modifies transport
      ensures |transport.log| == |old(transport.log)| + 1 && old(transport.log) <= transport.log
      ensures var e := transport.log[|old(transport.log)|];
              e.apdu == GET_PUBKEY && !e.detectButtonWait &&
              match Checked(e.reply)
              case Err(x) => r == Err(x)
              case Ok(devicePub) =>
                match Seal(primitives, secret, devicePub, clear)
                case Err(x) => r == Err(Encrypt(x))
                case Ok(blob) => r == Ok(blob)
    {
      var reply := transport.Transmit(GET_PUBKEY, false);
      if reply.Err? {
        return Err(reply.error);
      }
      var checked := CheckSw(reply.value.1);
      if checked.Err? {
        return Err(Applet(checked.error));
      }
      var blob := EncryptSeedPayload(primitives, secret, reply.value.0, clear);
      if blob.Err? {
        return Err(Encrypt(blob.error));
      }
      r := Ok(blob.value);
    }

    /** The part that writes and deletes share once the clear text is made. */
    method SendSealed(secret: nat, ghost c: Command, clear: seq<byte>) returns (r: Result<(), Error>)
      requires KeepsLength(primitives) && ShortPoints(primitives) && ValidCommand(c) && clear == ClearText(c)
      modifies transport
      ensures old(transport.log) <= transport.log
      ensures Sealed(primitives, secret, c, transport.log[|old(transport.log)|..], r)
    {
      ClearTextSize(c);
      ghost var before := transport.log;
      var blob := SealFor(secret, clear);
      assert transport.log[|before|..] == [transport.log[|before|]];
      if blob.Err? {
        return Err(blob.error);
      }
      var apdu := BuildApdu(WRITE_SEED, blob.value);
      ghost var first := transport.log[|before|];
      var reply := transport.Transmit(apdu, false);
      assert transport.log[|before|..] == [first, Exchange(apdu, false, reply)];
      if reply.Err? {
        return Err(reply.error);
      }
      var checked := CheckSw(reply.value.1);
      if checked.Err? {
        return Err(Applet(checked.error));
      }
      r := Ok(());
    }

    method WriteEntry(secret: nat, entry: WriteEntry) returns (r: Result<(), Error>)
      requires KeepsLength(primitives) && ShortPoints(primitives)
      modifies transport
      ensures old(transport.log) <= transport.log
      ensures Sealed(primitives, secret, Put(entry), transport.log[|old(transport.log)|..], r)
    {
      var clear := SerializeWriteEntry(entry);
      if clear.Err? {
        return Err(Parse(clear.error));
      }
      r := SendSealed(secret, Put(entry), clear.value);
    }

    method DeleteEntry(secret: nat, appName: seq<byte>, accountName: seq<byte>) returns (r: Result<(), Error>)
      requires KeepsLength(primitives) && ShortPoints(primitives)
      modifies transport
      ensures old(transport.log) <= transport.log
      ensures Sealed(primitives, secret, Remove(appName, accountName), transport.log[|old(transport.log)|..], r)
    {
      var clear := SerializeDeleteEntry(appName, accountName);
      if clear.Err? {
        return Err(Parse(clear.error));
      }
      r := SendSealed(secret, Remove(appName, accountName), clear.value);
    }

    method EraseAll() returns (r: Result<(), Error>)
      modifies transport
      ensures old(transport.log) <= transport.log
      ensures Erased(transport.log[|old(transport.log)|..], r)
    {
      var apdu := BuildApdu(WRITE_SEED, []);
      var reply := transport.Transmit(apdu, true);
      assert transport.log[|old(transport.log)|..] == [Exchange(apdu, true, reply)];
      if reply.Err? {
        return Err(reply.error);
      }
      var checked := CheckSw(reply.value.1);
      if checked.Err? {
        return Err(Applet(checked.error));
      }
      r := Ok(());
    }
  }
}
