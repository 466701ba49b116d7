/**
 A reference token: a list of records keyed by (app, account), enumerated in pages of the
 token's own choosing. Sessions are proved against every token that conforms to it.
 */
module Device {
  import opened Bytes
  import opened HidFrame
  import opened Proto
  import opened Entry
  import opened Crypto
  import opened Errors
  import opened Session

  type Key = (seq<byte>, seq<byte>)

  function KeyOf(w: WriteEntry): Key {
    (w.appName, w.accountName)
  }

  /** What is fixed about a token: primitives, public key and its generator of time-based codes. */
  datatype Card = Card(p: Primitives, pub: seq<byte>, code: (WriteEntry, u64) -> seq<byte>)

  ghost predicate SoundCard(card: Card) {
    Sound(card.p, card.pub) && forall w, ts :: IsText(card.code(w, ts))
  }

  /** The records stored, and those of the last listing not sent yet. */
  datatype Token = Token(store: seq<WriteEntry>, pending: seq<WriteEntry>)

  ghost predicate ValidStore(store: seq<WriteEntry>) {
    forall i :: 0 <= i < |store| ==> ValidWrite(store[i])
  }

  // ------------------------------------------------------------ the record list

  function Upsert(store: seq<WriteEntry>, w: WriteEntry): seq<WriteEntry> {
    if store == [] then [w]
    else if KeyOf(store[0]) == KeyOf(w) then [w] + store[1..]
    else [store[0]] + Upsert(store[1..], w)
  }

  function Without(store: seq<WriteEntry>, k: Key): seq<WriteEntry> {
    if store == [] then []
    else if KeyOf(store[0]) == k then Without(store[1..], k)
    else [store[0]] + Without(store[1..], k)
  }

  function Apply(c: Command, store: seq<WriteEntry>): seq<WriteEntry> {
    match c
    case Put(w) => Upsert(store, w)
    case Remove(app, account) => Without(store, (app, account))
  }

  /** A record as a listing shows it. */
  function Shown(card: Card, w: WriteEntry, timestamp: u64): Entry {
    Entry(w.config, w.appName, w.accountName,
          if HasCode(w.config, false) then Some(card.code(w, timestamp)) else None)
  }

  /** `e` is the record with a code: that of its time, or any text if codes come from a counter. */
  predicate MayRead(card: Card, w: WriteEntry, timestamp: u64, e: Entry) {
    && (e.config, e.appName, e.accountName) == (w.config, w.appName, w.accountName)
    && e.code.Some? && IsText(e.code.value)
    && (w.config.otpType.Totp? ==> e.code == Some(card.code(w, timestamp)))
  }

  function Listing(card: Card, store: seq<WriteEntry>, timestamp: u64): (es: seq<Entry>)
    ensures |es| == |store|
  {
    seq(|store|, i requires 0 <= i < |store| => Shown(card, store[i], timestamp))
  }

  /** The records as a map. */
  function AsMap(store: seq<WriteEntry>): map<Key, WriteEntry> {
    if store == [] then map[] else AsMap(store[1..])[KeyOf(store[0]) := store[0]]
  }

  /** No two records have the same names. */
  predicate UniqueKeys(store: seq<WriteEntry>) {
    store == [] || (KeyOf(store[0]) !in AsMap(store[1..]) && UniqueKeys(store[1..]))
  }

  // ---------------------------------------------------------------- requests

  datatype Request =
    | PubKey
    | ListAll(timestamp: u64)
    | ListMore(timestamp: u64)
    | ReadByName(timestamp: u64, key: Key)
    | EraseEverything
    | Change(command: Command)
    | Unknown

  /** A token's reading of a command. */
  function RequestOf(card: Card, apdu: seq<byte>): Request {
    if apdu == GET_PUBKEY then PubKey
    else
      match Unwrap(apdu)
      case None => Unknown
      case Some((header, body)) =>
        if header == ENUM_CODES then
          match DecodeQuery(body)
          case None => Unknown
          case Some(All(ts)) => ListAll(ts)
          case Some(One(ts, app, account)) => ReadByName(ts, (app, account))
        else if header == ENUM_CODES_CONTINUE && |body| == 8 then
          ListMore(U64OfBe(body))
        else if header == WRITE_SEED then
          if body == [] then EraseEverything
          else
            match Open(card.p, body)
            case None => Unknown
            case Some(clear) =>
              match DecodeClear(clear)
              case None => Unknown
              case Some(c) => Change(c)
        else Unknown
  }

  /** The page of the first `n` waiting records. */
  ghost predicate IsPage(card: Card, waiting: seq<WriteEntry>, timestamp: u64, data: seq<byte>, n: nat)
    requires ValidStore(waiting) && SoundCard(card)
  {
    && 1 <= n <= |waiting|
    && AllWellFormed(Listing(card, waiting[..n], timestamp))
    && data == EncodePage(EnumPage(Listing(card, waiting[..n], timestamp), n < |waiting|))
  }

  /** How a conforming token may answer; it may always refuse with a status of its own. */
  ghost predicate Allowed(card: Card, token: Token, request: Request, data: seq<byte>, sw: u16)
    requires SoundCard(card) && ValidStore(token.store) && ValidStore(token.pending)
  {
    if sw != SW_OK then
      CheckSw(sw) == Err(EntryNotFound) ==>
        match request
        case ListAll(_) => token.store == []
        case ReadByName(_, k) => forall i :: 0 <= i < |token.store| ==> KeyOf(token.store[i]) != k
        case _ => true
    else
      match request
      case PubKey => data == card.pub
      case ListAll(ts) => exists n :: IsPage(card, token.store, ts, data, n)
      case ListMore(ts) => exists n :: IsPage(card, token.pending, ts, data, n)
      case ReadByName(ts, k) =>
        exists i, e :: 0 <= i < |token.store| && KeyOf(token.store[i]) == k && MayRead(card, token.store[i], ts, e) &&
                       WellFormed(e, true) && data == EncodeEntry(e, true)
      case EraseEverything => true
      case Change(_) => true
      case Unknown => false
  }

  /** What the token does when it answers 9000; any other status leaves it alone. */
  ghost function Next(token: Token, request: Request, data: seq<byte>, sw: u16): Token {
    if sw != SW_OK then token
    else
      match request
      case ListAll(_) => token.(pending := Rest(token.store, data))
      case ListMore(_) => token.(pending := Rest(token.pending, data))
      case EraseEverything => Token([], [])
      case Change(c) => Token(Apply(c, token.store), [])
      case _ => token
  }

  /** The waiting records that a page leaves waiting. */
  ghost function Rest(waiting: seq<WriteEntry>, data: seq<byte>): seq<WriteEntry> {
    match ReadPage(data)
    case Err(_) => waiting
    case Ok(page) => if |page.entries| <= |waiting| then waiting[|page.entries|..] else []
  }

  /**
   What became of a command: what the token answered to it, whether or not the answer got
   back, or nothing if the token never had it.
   */
  type Fate = Option<(seq<byte>, u16)>

  /** The caller has the token's answer, or an error of the transport. */
  predicate Carries(reply: Response, fate: Fate) {
    match reply
    case Ok(answer) => fate == Some(answer)
    case Err(e) => IsLinkError(e)
  }

  ghost function Did(card: Card, token: Token, apdu: seq<byte>, fate: Fate): Token {
    match fate
    case None => token
    case Some((data, sw)) => Next(token, RequestOf(card, apdu), data, sw)
  }

  /** Every command in the log met its fate at a conforming token, and no answer got to another command. */
  ghost predicate Conforms(card: Card, token: Token, log: seq<Exchange>, fates: seq<Fate>)
    requires SoundCard(card)
    decreases |log|
  {
    ValidStore(token.store) && ValidStore(token.pending) && |log| == |fates| &&
    (log == [] ||
     (Carries(log[0].reply, fates[0]) &&
      (fates[0].Some? ==> Allowed(card, token, RequestOf(card, log[0].apdu), fates[0].value.0, fates[0].value.1)) &&
      Conforms(card, Did(card, token, log[0].apdu, fates[0]), log[1..], fates[1..])))
  }

  ghost function After(card: Card, token: Token, log: seq<Exchange>, fates: seq<Fate>): Token
    requires |log| == |fates|
    decreases |log|
  {
    if log == [] then token else After(card, Did(card, token, log[0].apdu, fates[0]), log[1..], fates[1..])
  }

  /** The last answer did not get back. */
  predicate Lost(log: seq<Exchange>) {
    log != [] && log[|log| - 1].reply.Err?
  }

  // -------------------------------------------------- commands reach the token

  lemma RequestListAll(card: Card, timestamp: u64)
    ensures RequestOf(card, EnumAllApdu(timestamp)) == ListAll(timestamp)
  {
    hide DecodeQuery, Unwrap, EnumAllBody;
    UnwrapIffBuilt(EnumAllApdu(timestamp), ENUM_CODES, EnumAllBody(timestamp));
    QueryRoundTrip(timestamp, [], []);
  }

  lemma RequestListMore(card: Card, timestamp: u64)
    ensures RequestOf(card, EnumContinueApdu(timestamp)) == ListMore(timestamp)
  {
    hide Unwrap, U64Be, U64OfBe;
    UnwrapIffBuilt(EnumContinueApdu(timestamp), ENUM_CODES_CONTINUE, U64Be(timestamp));
    U64RoundTrip(timestamp);
  }

  lemma RequestRead(card: Card, timestamp: u64, app: seq<byte>, account: seq<byte>)
    requires ValidNames(app, account)
    ensures |ReadBody(timestamp, app, account)| <= 0xFFFF
    ensures RequestOf(card, Apdu(ENUM_CODES, ReadBody(timestamp, app, account))) == ReadByName(timestamp, (app, account))
  {
    assert |ReadBody(timestamp, app, account)| <= 139;
    hide DecodeQuery, Unwrap, ReadBody, ValidNames;
    var body := ReadBody(timestamp, app, account);
    UnwrapIffBuilt(Apdu(ENUM_CODES, body), ENUM_CODES, body);
    QueryRoundTrip(timestamp, app, account);
  }

  lemma RequestErase(card: Card, apdu: seq<byte>)
    ensures RequestOf(card, apdu) == EraseEverything <==> apdu == ERASE_ALL
  {
    hide Unwrap, DecodeQuery, DecodeClear, Open;
    UnwrapIffBuilt(apdu, WRITE_SEED, []);
    if RequestOf(card, apdu) == EraseEverything {
      assert Unwrap(apdu) == Some((WRITE_SEED, []));
    }
  }

  lemma RequestSealed(card: Card, secret: nat, c: Command)
    requires SoundCard(card) && ValidCommand(c)
    ensures Seal(card.p, secret, card.pub, ClearText(c)).Ok?
    ensures var blob := Seal(card.p, secret, card.pub, ClearText(c)).value;
            80 <= |blob| <= 272 && RequestOf(card, Apdu(WRITE_SEED, blob)) == Change(c)
  {
    hide Unwrap, DecodeClear, Open, ClearText, Seal, ValidCommand;
    ClearTextSize(c);
    OpenSealed(card.p, secret, card.pub, ClearText(c));
    var blob := Seal(card.p, secret, card.pub, ClearText(c)).value;
    UnwrapIffBuilt(Apdu(WRITE_SEED, blob), WRITE_SEED, blob);
    ClearTextIff(ClearText(c), c);
  }

  /**
   The whole write path: what the caller asks for is serialised, sealed, wrapped and
   framed, and whatever busy reports the delivery is mixed with, the token that
   reassembles, unwraps, opens, unpads and decodes it has exactly that command. It takes
   at most 279 bytes and 5 frames, and is never the bodyless erase.
   */
  lemma WritePath(card: Card, secret: nat, c: Command, raws: seq<seq<byte>>)
    requires SoundCard(card) && ValidCommand(c)
    requires Seal(card.p, secret, card.pub, ClearText(c)).Ok?
    requires |Seal(card.p, secret, card.pub, ClearText(c)).value| <= 0xFFFF
    requires Delivery(Apdu(WRITE_SEED, Seal(card.p, secret, card.pub, ClearText(c)).value), 0, 0, raws)
    ensures Feed(NEW_ASM, raws).Complete?
    ensures RequestOf(card, Feed(NEW_ASM, raws).asm.buf) == Change(c)
    ensures var apdu := Apdu(WRITE_SEED, Seal(card.p, secret, card.pub, ClearText(c)).value);
            87 <= |apdu| <= 279 && |SendFrames(apdu)| <= 5 && apdu != ERASE_ALL
  {
    hide ClearText, Seal, ValidCommand, Delivery, Feed, RequestOf;
    RequestSealed(card, secret, c);
    FramingRoundTrip(Apdu(WRITE_SEED, Seal(card.p, secret, card.pub, ClearText(c)).value), raws);
  }

  /** The assumptions about the primitives can be met. */
  lemma SoundCardsExist()
    ensures exists card :: SoundCard(card)
  {
    var p := Primitives(_ => true, _ => Zeros(64), (_, _) => [], _ => [], (_, m) => m, (_, m) => m);
    assert SoundCard(Card(p, Zeros(64), (_, _) => []));
  }
}
