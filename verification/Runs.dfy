/** Whole runs of a session against a conforming token. */
module Runs {
  import opened Bytes
  import opened Proto
  import opened Entry
  import opened Crypto
  import opened Errors
  import opened Session
  import opened Device

  // ------------------------------------------------------------- enumeration

  lemma ListingWellFormed(card: Card, store: seq<WriteEntry>, timestamp: u64)
    requires SoundCard(card) && ValidStore(store)
    ensures AllWellFormed(Listing(card, store, timestamp))
  {
  }

  lemma PageAnswer(card: Card, waiting: seq<WriteEntry>, timestamp: u64, data: seq<byte>, n: nat)
    requires SoundCard(card) && ValidStore(waiting) && IsPage(card, waiting, timestamp, data, n)
    ensures ReadPage(data) == Ok(EnumPage(Listing(card, waiting[..n], timestamp), n < |waiting|))
    ensures Rest(waiting, data) == waiting[n..]
  {
    hide ReadPage, EncodePage, AllWellFormed;
    PageIff(data, EnumPage(Listing(card, waiting[..n], timestamp), n < |waiting|));
  }

  lemma ListingSplit(card: Card, waiting: seq<WriteEntry>, timestamp: u64, n: nat)
    requires n <= |waiting|
    ensures Listing(card, waiting, timestamp) ==
            Listing(card, waiting[..n], timestamp) + Listing(card, waiting[n..], timestamp)
  {
  }

  lemma {:induction false} EntriesOfHead(x: Exchange, log: seq<Exchange>)
    ensures EntriesOf([x] + log) == PageEntries(x.reply) + EntriesOf(log)
  {
    hide PageEntries, EntriesOf;
    if log == [] {
      EntriesOfAppend([], x);
      assert [] + [x] == [x] + log == [x];
      assert EntriesOf([]) == [] by { NoEntries(); }
    } else {
      var n := |log| - 1;
      EntriesOfHead(x, log[..n]);
      EntriesOfAppend(log[..n], log[n]);
      EntriesOfAppend([x] + log[..n], log[n]);
      assert log[..n] + [log[n]] == log && [x] + log[..n] + [log[n]] == [x] + log;
    }
  }

  lemma NoEntries()
    ensures EntriesOf([]) == []
  {
  }

  /** A page is being asked for: the first of the store, or the next of those waiting. */
  ghost predicate Asking(card: Card, timestamp: u64, first: bool, apdu: seq<byte>) {
    RequestOf(card, apdu) == if first then ListAll(timestamp) else ListMore(timestamp)
  }

  /** The answers in the log make `r`, reading from the page in `log[0]` on. */
  ghost predicate PagesMake(log: seq<Exchange>, r: Result<seq<Entry>, Error>)
    requires log != []
  {
    var n := |log| - 1;
    AllMore(log[..n]) &&
    match PageOf(log[n].reply)
    case Err(e) => r == Err(e)
    case Ok(page) => !page.morePages && r == Ok(EntriesOf(log))
  }

  /** What the first answer of a paging log says, and what is left to prove about the rest. */
  lemma FirstAnswer(card: Card, token: Token, timestamp: u64, first: bool, log: seq<Exchange>, fates: seq<Fate>)
    returns (n: nat)
    requires SoundCard(card) && log != [] && Conforms(card, token, log, fates)
    requires Asking(card, timestamp, first, log[0].apdu)
    requires log[0].reply.Ok? && log[0].reply.value.1 == SW_OK
    ensures var waiting := if first then token.store else token.pending;
            1 <= n <= |waiting| && IsPage(card, waiting, timestamp, log[0].reply.value.0, n) &&
            PageOf(log[0].reply) == Ok(EnumPage(Listing(card, waiting[..n], timestamp), n < |waiting|)) &&
            Conforms(card, token.(pending := waiting[n..]), log[1..], fates[1..]) &&
            After(card, token, log, fates) == After(card, token.(pending := waiting[n..]), log[1..], fates[1..])
  {
    hide RequestOf, ReadPage, IsPage, Rest;
    var waiting := if first then token.store else token.pending;
    var data := log[0].reply.value.0;
    n :| IsPage(card, waiting, timestamp, data, n);
    PageBounds(card, waiting, timestamp, data, n);
    PageAnswer(card, waiting, timestamp, data, n);
  }

  lemma PageBounds(card: Card, waiting: seq<WriteEntry>, timestamp: u64, data: seq<byte>, n: nat)
    requires SoundCard(card) && ValidStore(waiting) && IsPage(card, waiting, timestamp, data, n)
    ensures 1 <= n <= |waiting|
  {
  }

  /** A page that is refused or lost changes no record. */
  lemma NoPage(card: Card, token: Token, timestamp: u64, first: bool, x: Exchange, fate: Fate)
    requires Asking(card, timestamp, first, x.apdu) && Carries(x.reply, fate)
    requires x.reply.Ok? ==> x.reply.value.1 != SW_OK
    ensures PageOf(x.reply).Err? && (x.reply.Ok? ==> PageOf(x.reply).error.Applet?)
    ensures After(card, token, [x], [fate]).store == token.store
  {
    hide RequestOf;
  }

  lemma NothingMore(card: Card, token: Token, log: seq<Exchange>, fates: seq<Fate>)
    requires SoundCard(card) && Conforms(card, token, log, fates)
    ensures |log| == |fates| && (log != [] ==> Carries(log[0].reply, fates[0]))
    ensures log == [] ==> After(card, token, log, fates) == token && EntriesOf(log) == []
  {
  }

  lemma {:induction false} Paging(card: Card, token: Token, timestamp: u64, first: bool, log: seq<Exchange>,
                                  fates: seq<Fate>, r: Result<seq<Entry>, Error>)
    requires SoundCard(card) && log != [] && Conforms(card, token, log, fates)
    requires Asking(card, timestamp, first, log[0].apdu) && ContinuesAt(timestamp, log[1..])
    requires PagesMake(log, r)
    ensures var waiting := if first then token.store else token.pending;
            |log| == |fates| && After(card, token, log, fates).store == token.store &&
            (r.Ok? ==> r.value == Listing(card, waiting, timestamp)) &&
            (r.Err? ==> r.error.Applet? || Lost(log))
    decreases |log|
  {
    hide RequestOf, Listing, Conforms, After, PageOf, EntriesOf, AllMore, SoundCard, IsPage;
    var waiting := if first then token.store else token.pending;
    var rest := log[1..];
    assert log == [log[0]] + rest;
    HeadMore(log, r);
    NothingMore(card, token, log, fates);
    if log[0].reply.Err? || log[0].reply.value.1 != SW_OK {
      NoPage(card, token, timestamp, first, log[0], fates[0]);
      assert log == [log[0]] && fates == [fates[0]];
    } else {
      var n := FirstAnswer(card, token, timestamp, first, log, fates);
      var token' := token.(pending := waiting[n..]);
      EntriesOfHead(log[0], rest);
      ListingSplit(card, waiting, timestamp, n);
      if n < |waiting| {
        PagesRest(log, r);
        RequestListMore(card, timestamp);
        Paging(card, token', timestamp, false, rest, fates[1..], RestOf(r, |PageEntries(log[0].reply)|));
      } else {
        NothingMore(card, token', rest, fates[1..]);
        assert waiting[..n] == waiting;
      }
    }
  }

  /** An outcome without its first `n` entries. */
  ghost function RestOf(r: Result<seq<Entry>, Error>, n: nat): Result<seq<Entry>, Error> {
    match r
    case Err(e) => Err(e)
    case Ok(es) => if n <= |es| then Ok(es[n..]) else Ok([])
  }

  lemma HeadMore(log: seq<Exchange>, r: Result<seq<Entry>, Error>)
    requires log != [] && PagesMake(log, r)
    ensures |log| > 1 ==> PageOf(log[0].reply).Ok? && PageOf(log[0].reply).value.morePages
  {
    hide PageOf;
    if |log| > 1 {
      assert log[..|log| - 1][0] == log[0];
    }
  }

  lemma AllMoreTail(log: seq<Exchange>)
    requires log != [] && AllMore(log)
    ensures AllMore(log[1..])
  {
    hide PageOf;
    var tail := log[1..];
    forall j | 0 <= j < |tail|
      ensures PageOf(tail[j].reply).Ok? && PageOf(tail[j].reply).value.morePages
    {
      assert tail[j] == log[j + 1];
    }
  }

  lemma PagesRest(log: seq<Exchange>, r: Result<seq<Entry>, Error>)
    requires |log| > 1 && PagesMake(log, r)
    ensures PagesMake(log[1..], RestOf(r, |PageEntries(log[0].reply)|))
    ensures r.Ok? ==> r.value == PageEntries(log[0].reply) + EntriesOf(log[1..])
  {
    hide PageOf, PageEntries, EntriesOf, AllMore;
    assert log == [log[0]] + log[1..];
    EntriesOfHead(log[0], log[1..]);
    var n := |log| - 1;
    AllMoreTail(log[..n]);
    assert log[1..][..n - 1] == log[..n][1..];
  }

  /**
   Against any conforming token, however it cuts its listing into pages, a successful
   enumeration is exactly the listing, and none touches the records; it fails only with a
   status word of the token's own or when an answer is lost.
   */
  lemma EnumerateIsListing(card: Card, token: Token, timestamp: u64, log: seq<Exchange>, fates: seq<Fate>,
                           r: Result<seq<Entry>, Error>)
    requires SoundCard(card) && Conforms(card, token, log, fates) && Enumerated(timestamp, log, r)
    ensures After(card, token, log, fates).store == token.store
    ensures r.Ok? ==> r.value == Listing(card, token.store, timestamp)
    ensures r.Err? ==> r.error.Applet? || Lost(log)
  {
    hide RequestOf, ReadPage, PageOf, EnumAllApdu, EnumContinueApdu;
    RequestListAll(card, timestamp);
    if IsEmptyToken(log[0].reply) {
      NotListed(card, token, timestamp, log, fates);
    } else {
      Paging(card, token, timestamp, true, log, fates, r);
    }
  }

  lemma NotListed(card: Card, token: Token, timestamp: u64, log: seq<Exchange>, fates: seq<Fate>)
    requires SoundCard(card) && Conforms(card, token, log, fates) && |log| == 1
    requires RequestOf(card, log[0].apdu) == ListAll(timestamp) && IsEmptyToken(log[0].reply)
    ensures After(card, token, log, fates) == token && token.store == []
  {
    hide RequestOf;
  }

  // -------------------------------------------------------- cuts of a listing

  /** The cuts are positive and add up to `n`. */
  predicate CutsOf(cuts: seq<nat>, n: nat) {
    if cuts == [] then n == 0 else 0 < cuts[0] <= n && CutsOf(cuts[1..], n - cuts[0])
  }

  /** The page of the first `n` waiting records, as answered. */
  ghost function PageReply(card: Card, waiting: seq<WriteEntry>, timestamp: u64, n: nat): Response
    requires SoundCard(card) && ValidStore(waiting) && 0 < n <= |waiting|
  {
    ListingWellFormed(card, waiting[..n], timestamp);
    Ok((EncodePage(EnumPage(Listing(card, waiting[..n], timestamp), n < |waiting|)), SW_OK))
  }

  /** The exchanges in which a token sends the waiting records in pages of the sizes `cuts`. */
  ghost function CutLog(card: Card, waiting: seq<WriteEntry>, timestamp: u64, first: bool, cuts: seq<nat>): (log: seq<Exchange>)
    requires SoundCard(card) && ValidStore(waiting) && CutsOf(cuts, |waiting|)
    ensures |log| == |cuts|
    decreases |cuts|
  {
    if cuts == [] then []
    else
      [Exchange(if first then EnumAllApdu(timestamp) else EnumContinueApdu(timestamp), false,
                PageReply(card, waiting, timestamp, cuts[0]))] +
      CutLog(card, waiting[cuts[0]..], timestamp, false, cuts[1..])
  }

  /** The fates of commands that were all answered. */
  ghost function Fates(log: seq<Exchange>): (fates: seq<Fate>)
    requires forall i :: 0 <= i < |log| ==> log[i].reply.Ok?
    ensures |fates| == |log|
  {
    seq(|log|, i requires 0 <= i < |log| => Some(log[i].reply.value))
  }

  lemma {:induction false} CutLogContinues(card: Card, waiting: seq<WriteEntry>, timestamp: u64, cuts: seq<nat>)
    requires SoundCard(card) && ValidStore(waiting) && CutsOf(cuts, |waiting|)
    ensures ContinuesAt(timestamp, CutLog(card, waiting, timestamp, false, cuts))
    decreases |cuts|
  {
    hide PageReply, EnumContinueApdu, SoundCard, ValidStore;
    if cuts != [] {
      ValidRest(waiting, cuts[0]);
      CutLogContinues(card, waiting[cuts[0]..], timestamp, cuts[1..]);
    }
  }

  lemma ValidRest(waiting: seq<WriteEntry>, n: nat)
    requires ValidStore(waiting) && n <= |waiting|
    ensures ValidStore(waiting[n..]) && ValidStore(waiting[..n])
  {
  }

  lemma PageReplyReads(card: Card, waiting: seq<WriteEntry>, timestamp: u64, n: nat)
    requires SoundCard(card) && ValidStore(waiting) && 0 < n <= |waiting|
    ensures var reply := PageReply(card, waiting, timestamp, n);
            reply.Ok? && reply.value.1 == SW_OK && IsPage(card, waiting, timestamp, reply.value.0, n) &&
            Rest(waiting, reply.value.0) == waiting[n..] &&
            PageOf(reply) == Ok(EnumPage(Listing(card, waiting[..n], timestamp), n < |waiting|))
  {
    hide ReadPage, EncodePage, AllWellFormed, Rest;
    var data := PageReply(card, waiting, timestamp, n).value.0;
    ListingWellFormed(card, waiting[..n], timestamp);
    assert IsPage(card, waiting, timestamp, data, n);
    PageAnswer(card, waiting, timestamp, data, n);
  }

  /** Every way to cut the waiting records can be sent, and gives their listing. */
  lemma {:induction false} CutsConform(card: Card, token: Token, timestamp: u64, first: bool, cuts: seq<nat>)
    requires SoundCard(card) && ValidStore(token.store) && ValidStore(token.pending)
    requires CutsOf(cuts, |if first then token.store else token.pending|) && cuts != []
    ensures var waiting := if first then token.store else token.pending;
            var log := CutLog(card, waiting, timestamp, first, cuts);
            (forall i :: 0 <= i < |log| ==> log[i].reply.Ok?) && Conforms(card, token, log, Fates(log)) &&
            PagesMake(log, Ok(Listing(card, waiting, timestamp)))
    decreases |cuts|
  {
    hide RequestOf, SoundCard, PageReply, IsPage, Listing, PageOf, Rest, EnumAllApdu, EnumContinueApdu, ValidStore,
         PagesMake, Conforms;
    var waiting := if first then token.store else token.pending;
    var n := cuts[0];
    ValidRest(waiting, n);
    PageReplyReads(card, waiting, timestamp, n);
    var next := token.(pending := waiting[n..]);
    var x := CutLog(card, waiting, timestamp, first, cuts)[0];
    RequestListAll(card, timestamp);
    RequestListMore(card, timestamp);
    var rest := CutLog(card, waiting[n..], timestamp, false, cuts[1..]);
    var log := CutLog(card, waiting, timestamp, first, cuts);
    assert log == [x] + rest;
    if cuts[1..] == [] {
      LastPage(card, waiting, timestamp, x, n);
      EmptyConforms(card, next);
    } else {
      CutsConform(card, next, timestamp, false, cuts[1..]);
      PageBefore(card, waiting, timestamp, x, n, rest);
    }
    PageConforms(card, token, timestamp, first, x, n, rest);
    assert Fates(log) == [Some(x.reply.value)] + Fates(rest);
  }

  lemma EmptyConforms(card: Card, token: Token)
    requires SoundCard(card) && ValidStore(token.store) && ValidStore(token.pending)
    ensures Conforms(card, token, [], Fates([]))
  {
  }

  lemma PageConforms(card: Card, token: Token, timestamp: u64, first: bool, x: Exchange, n: nat, rest: seq<Exchange>)
    requires SoundCard(card) && ValidStore(token.store) && ValidStore(token.pending)
    requires Asking(card, timestamp, first, x.apdu)
    requires var waiting := if first then token.store else token.pending;
             x.reply.Ok? && x.reply.value.1 == SW_OK && n <= |waiting| &&
             IsPage(card, waiting, timestamp, x.reply.value.0, n) && Rest(waiting, x.reply.value.0) == waiting[n..] &&
             (forall i :: 0 <= i < |rest| ==> rest[i].reply.Ok?) &&
             Conforms(card, token.(pending := waiting[n..]), rest, Fates(rest))
    ensures Conforms(card, token, [x] + rest, [Some(x.reply.value)] + Fates(rest))
  {
    hide RequestOf, SoundCard, IsPage, Rest, ValidStore, Conforms;
    OneAnswerConforms(card, token, x, Some(x.reply.value), rest, Fates(rest));
  }

  lemma LastPage(card: Card, waiting: seq<WriteEntry>, timestamp: u64, x: Exchange, n: nat)
    requires n == |waiting| && PageOf(x.reply) == Ok(EnumPage(Listing(card, waiting[..n], timestamp), n < |waiting|))
    ensures PagesMake([x] + [], Ok(Listing(card, waiting, timestamp)))
  {
    hide PageOf, Listing;
    assert [x] + [] == [x] && waiting[..n] == waiting;
    EntriesOfHead(x, []);
    assert EntriesOf([]) == [] && [x][..0] == [];
    assert PageEntries(x.reply) + [] == PageEntries(x.reply);
  }

  lemma PageBefore(card: Card, waiting: seq<WriteEntry>, timestamp: u64, x: Exchange, n: nat, rest: seq<Exchange>)
    requires n < |waiting| && PageOf(x.reply) == Ok(EnumPage(Listing(card, waiting[..n], timestamp), true))
    requires rest != [] && PagesMake(rest, Ok(Listing(card, waiting[n..], timestamp)))
    ensures PagesMake([x] + rest, Ok(Listing(card, waiting, timestamp)))
  {
    hide PageOf, Listing, EntriesOf;
    ListingSplit(card, waiting, timestamp, n);
    EntriesOfHead(x, rest);
    var log, m := [x] + rest, |rest| - 1;
    assert log[..m + 1] == [x] + rest[..m];
  }

  /**
   However a conforming token cuts its listing, it can send it so, in exactly one exchange per
   cut, and the enumeration is the listing.
   */
  lemma EveryCutIsListed(card: Card, token: Token, timestamp: u64, cuts: seq<nat>)
    requires SoundCard(card) && ValidStore(token.store) && ValidStore(token.pending)
    requires CutsOf(cuts, |token.store|) && cuts != []
    ensures var log := CutLog(card, token.store, timestamp, true, cuts);
            (forall i :: 0 <= i < |log| ==> log[i].reply.Ok?) && Conforms(card, token, log, Fates(log)) &&
            Enumerated(timestamp, log, Ok(Listing(card, token.store, timestamp)))
  {
    hide RequestOf, SoundCard, PageReply, Listing, PageOf, EnumAllApdu, EnumContinueApdu, ValidStore, Conforms;
    CutsConform(card, token, timestamp, true, cuts);
    ValidRest(token.store, cuts[0]);
    CutLogContinues(card, token.store[cuts[0]..], timestamp, cuts[1..]);
    PageReplyReads(card, token.store, timestamp, cuts[0]);
  }

  lemma {:induction false} PagingIsCut(card: Card, token: Token, timestamp: u64, first: bool, log: seq<Exchange>,
                                       fates: seq<Fate>, r: Result<seq<Entry>, Error>) returns (cuts: seq<nat>)
    requires SoundCard(card) && log != [] && Conforms(card, token, log, fates)
    requires ValidStore(token.store) && ValidStore(token.pending)
    requires log[0].apdu == (if first then EnumAllApdu(timestamp) else EnumContinueApdu(timestamp))
    requires !log[0].detectButtonWait && ContinuesAt(timestamp, log[1..]) && PagesMake(log, r) && r.Ok?
    ensures var waiting := if first then token.store else token.pending;
            CutsOf(cuts, |waiting|) && log == CutLog(card, waiting, timestamp, first, cuts)
    decreases |log|
  {
    hide RequestOf, Listing, Conforms, After, PageOf, EntriesOf, AllMore, SoundCard, IsPage, EnumAllApdu, EnumContinueApdu,
         ValidStore, PageReply;
    var waiting := if first then token.store else token.pending;
    var rest := log[1..];
    assert log == [log[0]] + rest;
    HeadMore(log, r);
    NothingMore(card, token, log, fates);
    RequestListAll(card, timestamp);
    RequestListMore(card, timestamp);
    HeadIsPage(log, r);
    var n := FirstAnswer(card, token, timestamp, first, log, fates);
    PageIsReply(card, waiting, timestamp, log[0].reply, n);
    ValidRest(waiting, n);
    var tail: seq<nat> := [];
    if n < |waiting| {
      PagesRest(log, r);
      tail := PagingIsCut(card, token.(pending := waiting[n..]), timestamp, false, rest, fates[1..],
                          RestOf(r, |PageEntries(log[0].reply)|));
    }
    cuts := [n] + tail;
    assert cuts[1..] == tail;
  }

  lemma HeadIsPage(log: seq<Exchange>, r: Result<seq<Entry>, Error>)
    requires log != [] && PagesMake(log, r) && r.Ok?
    ensures log[0].reply.Ok? && log[0].reply.value.1 == SW_OK && PageOf(log[0].reply).Ok?
    ensures |log| == 1 ==> !PageOf(log[0].reply).value.morePages
  {
    hide ReadPage, EntriesOf;
    if |log| > 1 {
      assert log[..|log| - 1][0] == log[0];
    }
  }

  lemma PageIsReply(card: Card, waiting: seq<WriteEntry>, timestamp: u64, reply: Response, n: nat)
    requires SoundCard(card) && ValidStore(waiting) && 0 < n <= |waiting| && reply.Ok? && reply.value.1 == SW_OK
    requires IsPage(card, waiting, timestamp, reply.value.0, n)
    ensures reply == PageReply(card, waiting, timestamp, n)
  {
    hide EncodePage, AllWellFormed;
  }

  /** Conversely every successful enumeration of some records is one of these: one exchange per page. */
  lemma EnumerationIsCut(card: Card, token: Token, timestamp: u64, log: seq<Exchange>, fates: seq<Fate>,
                         r: Result<seq<Entry>, Error>)
    requires SoundCard(card) && Conforms(card, token, log, fates) && Enumerated(timestamp, log, r)
    requires ValidStore(token.store) && r.Ok? && token.store != []
    ensures exists cuts :: CutsOf(cuts, |token.store|) && log == CutLog(card, token.store, timestamp, true, cuts)
  {
    hide RequestOf, ReadPage, PageOf, EnumAllApdu, EnumContinueApdu;
    RequestListAll(card, timestamp);
    if IsEmptyToken(log[0].reply) {
      NotListed(card, token, timestamp, log, fates);
    } else {
      var cuts := PagingIsCut(card, token, timestamp, true, log, fates, r);
    }
  }

  // -------------------------------------------------------- single operations

  /** One command. */
  lemma OneExchange(card: Card, token: Token, x: Exchange, more: seq<Exchange>, fates: seq<Fate>)
    requires SoundCard(card) && Conforms(card, token, [x] + more, fates)
    ensures |fates| == 1 + |more| && Carries(x.reply, fates[0])
    ensures fates[0].Some? ==> Allowed(card, token, RequestOf(card, x.apdu), fates[0].value.0, fates[0].value.1)
    ensures var next := Did(card, token, x.apdu, fates[0]);
            Conforms(card, next, more, fates[1..]) &&
            After(card, token, [x] + more, fates) == After(card, next, more, fates[1..])
  {
    hide RequestOf, Did, Allowed;
    assert ([x] + more)[1..] == more;
  }

  lemma Idle(card: Card, token: Token)
    ensures After(card, token, [], []) == token
  {
  }

  /** An erase empties the token when it succeeds; when its answer is lost it may have. */
  lemma ErasesAll(card: Card, token: Token, log: seq<Exchange>, fates: seq<Fate>, r: Result<(), Error>)
    requires SoundCard(card) && Conforms(card, token, log, fates) && Erased(log, r)
    ensures var store := After(card, token, log, fates).store;
            if r.Ok? then store == [] else store == token.store || (store == [] && Lost(log))
    ensures r.Err? ==> r.error.Applet? || Lost(log)
  {
    hide RequestOf, Conforms, After;
    assert log == [log[0]] + [];
    OneExchange(card, token, log[0], [], fates);
    RequestErase(card, log[0].apdu);
    Idle(card, Did(card, token, log[0].apdu, fates[0]));
    assert fates[1..] == [];
  }

  /**
   A sealed write or delete changes the records as asked when it succeeds, and not at all
   otherwise, unless its last answer is lost: then either may be the case.
   */
  lemma SealedApplies(card: Card, token: Token, secret: nat, c: Command, log: seq<Exchange>, fates: seq<Fate>,
                      r: Result<(), Error>)
    requires SoundCard(card) && Conforms(card, token, log, fates) && Sealed(card.p, secret, c, log, r)
    ensures var store := After(card, token, log, fates).store;
            if r.Ok? then store == Apply(c, token.store)
            else store == token.store || (store == Apply(c, token.store) && Lost(log) && |log| == 2)
    ensures r.Err? ==> r.error.Applet? || Lost(log) || (!ValidCommand(c) && r.error == Parse(Invalid))
  {
    hide RequestOf, Conforms, After, Seal, ClearText, ValidCommand, Apply;
    if ValidCommand(c) {
      var first := log[0];
      assert log == [first] + log[1..];
      OneExchange(card, token, first, log[1..], fates);
      RequestPubKey(card);
      assert Did(card, token, first.apdu, fates[0]) == token;
      Idle(card, token);
      if Checked(first.reply).Ok? {
        RequestSealed(card, secret, c);
        assert log[1..] == [log[1]] + [];
        OneExchange(card, token, log[1], [], fates[1..]);
        Idle(card, Did(card, token, log[1].apdu, fates[1]));
        assert fates[1..][1..] == [];
      } else {
        assert log[1..] == [] && fates[1..] == [];
      }
    } else {
      NothingMore(card, token, log, fates);
    }
  }

  lemma RequestPubKey(card: Card)
    ensures RequestOf(card, GET_PUBKEY) == PubKey
  {
  }

  /** Reading one entry returns the stored record with its code, and changes nothing. */
  lemma ReadsStored(card: Card, token: Token, timestamp: u64, app: seq<byte>, account: seq<byte>,
                    log: seq<Exchange>, fates: seq<Fate>, r: Result<Entry, Error>)
    requires SoundCard(card) && Conforms(card, token, log, fates)
    requires ReadEntryDone(timestamp, app, account, log, r)
    ensures After(card, token, log, fates).store == token.store
    ensures r.Ok? ==> exists i :: 0 <= i < |token.store| && KeyOf(token.store[i]) == (app, account) &&
                                  MayRead(card, token.store[i], timestamp, r.value)
    ensures r == Err(Applet(EntryNotFound)) ==> forall i :: 0 <= i < |token.store| ==> KeyOf(token.store[i]) != (app, account)
    ensures r.Err? ==> r.error.Applet? || Lost(log) || (!ValidNames(app, account) && r.error == Parse(Invalid))
  {
    hide RequestOf, Conforms, After, ReadOne, ReadBody, ValidNames, EncodeEntry, WellFormed;
    if ValidNames(app, account) {
      RequestRead(card, timestamp, app, account);
      assert log == [log[0]] + [];
      OneExchange(card, token, log[0], [], fates);
      Idle(card, token);
      assert fates[1..] == [];
      if log[0].reply.Ok? && log[0].reply.value.1 == SW_OK {
        var data := log[0].reply.value.0;
        var i, e :| 0 <= i < |token.store| && KeyOf(token.store[i]) == (app, account) &&
                    MayRead(card, token.store[i], timestamp, e) && WellFormed(e, true) && data == EncodeEntry(e, true);
        ReadOneIff(data, e);
      }
    } else {
      NothingMore(card, token, log, fates);
    }
  }

  // --------------------------------------------------------------- whole runs

  datatype Call =
    | Write(secret: nat, write: WriteEntry)
    | Delete(secret: nat, appName: seq<byte>, accountName: seq<byte>)
    | Erase
    | Enumerate(timestamp: u64)
    | Read(timestamp: u64, key: Key)

  datatype Outcome =
    | Changed(r: Result<(), Error>)
    | Listed(entries: Result<seq<Entry>, Error>)
    | Found(entry: Result<Entry, Error>)

  /** One call of a session, with what it exchanged and returned. */
  datatype Event = Event(call: Call, log: seq<Exchange>, outcome: Outcome)

  /** The event is one the session's methods can produce. */
  ghost predicate Happened(p: Primitives, ev: Event) {
    match ev.call
    case Write(secret, w) => ev.outcome.Changed? && Sealed(p, secret, Put(w), ev.log, ev.outcome.r)
    case Delete(secret, app, account) =>
      ev.outcome.Changed? && Sealed(p, secret, Remove(app, account), ev.log, ev.outcome.r)
    case Erase => ev.outcome.Changed? && Erased(ev.log, ev.outcome.r)
    case Enumerate(ts) => ev.outcome.Listed? && Enumerated(ts, ev.log, ev.outcome.entries)
    case Read(ts, k) => ev.outcome.Found? && ReadEntryDone(ts, k.0, k.1, ev.log, ev.outcome.entry)
  }

  /** What a call that changes records makes of a map from names to records. */
  ghost function Effect(m: map<Key, WriteEntry>, call: Call): map<Key, WriteEntry> {
    match call
    case Write(_, w) => m[KeyOf(w) := w]
    case Delete(_, app, account) => m - {(app, account)}
    case Erase => map[]
    case _ => m
  }

  /** The map after a call whose answer is known: its effect if it succeeded, else none. */
  ghost function MapAfter(m: map<Key, WriteEntry>, ev: Event): map<Key, WriteEntry> {
    if ev.outcome.Changed? && ev.outcome.r.Ok? then Effect(m, ev.call) else m
  }

  /** The call failed because its answer was lost, so it may have had its effect. */
  ghost predicate InDoubt(ev: Event) {
    ev.outcome.Changed? && ev.outcome.r.Err? && Lost(ev.log)
  }

  ghost predicate MayBecome(m: map<Key, WriteEntry>, ev: Event, m': map<Key, WriteEntry>) {
    m' == MapAfter(m, ev) || (InDoubt(ev) && m' == Effect(m, ev.call))
  }

  ghost function MapAfterAll(m: map<Key, WriteEntry>, evs: seq<Event>): map<Key, WriteEntry>
    decreases |evs|
  {
    if evs == [] then m else MapAfterAll(MapAfter(m, evs[0]), evs[1..])
  }

  /** The run `evs` met the fates `fates` at a conforming token, from `token` on. */
  ghost predicate Run(card: Card, token: Token, evs: seq<Event>, fates: seq<seq<Fate>>)
    requires SoundCard(card)
    decreases |evs|
  {
    |evs| == |fates| &&
    (evs == [] ||
     (Happened(card.p, evs[0]) && Conforms(card, token, evs[0].log, fates[0]) && |evs[0].log| == |fates[0]| &&
      Run(card, After(card, token, evs[0].log, fates[0]), evs[1..], fates[1..])))
  }

  /** The token's records after each number of calls, as maps. */
  ghost function Maps(card: Card, token: Token, evs: seq<Event>, fates: seq<seq<Fate>>): (maps: seq<map<Key, WriteEntry>>)
    requires SoundCard(card) && Run(card, token, evs, fates)
    ensures |maps| == |evs| + 1
    decreases |evs|
  {
    [AsMap(token.store)] +
    if evs == [] then [] else Maps(card, After(card, token, evs[0].log, fates[0]), evs[1..], fates[1..])
  }

  /** The entries are exactly one per record of the map. */
  ghost predicate Lists(card: Card, m: map<Key, WriteEntry>, timestamp: u64, es: seq<Entry>) {
    && |es| == |m|
    && (forall k :: k in m ==> Shown(card, m[k], timestamp) in es)
    && (forall i :: 0 <= i < |es| ==>
          (es[i].appName, es[i].accountName) in m &&
          es[i] == Shown(card, m[(es[i].appName, es[i].accountName)], timestamp))
  }

  /** What a caller may expect of an outcome when the token holds the records of `m`. */
  ghost predicate Truthful(card: Card, m: map<Key, WriteEntry>, ev: Event) {
    match (ev.call, ev.outcome)
    case (Enumerate(ts), Listed(Ok(es))) => Lists(card, m, ts, es)
    case (Read(ts, k), Found(Ok(e))) => k in m && MayRead(card, m[k], ts, e)
    case (Read(ts, k), Found(Err(x))) => x == Applet(EntryNotFound) ==> k !in m
    case _ => true
  }

  lemma {:induction false} UpsertUpdatesMap(store: seq<WriteEntry>, w: WriteEntry)
    ensures AsMap(Upsert(store, w)) == AsMap(store)[KeyOf(w) := w]
    ensures UniqueKeys(store) ==> UniqueKeys(Upsert(store, w))
  {
    if store != [] {
      UpsertUpdatesMap(store[1..], w);
      assert ([w] + store[1..])[1..] == store[1..];
      assert ([store[0]] + Upsert(store[1..], w))[1..] == Upsert(store[1..], w);
    } else {
      assert [w][1..] == [];
    }
  }

  lemma {:induction false} WithoutUpdatesMap(store: seq<WriteEntry>, k: Key)
    ensures AsMap(Without(store, k)) == AsMap(store) - {k}
    ensures UniqueKeys(store) ==> UniqueKeys(Without(store, k))
  {
    if store != [] {
      WithoutUpdatesMap(store[1..], k);
      assert ([store[0]] + Without(store[1..], k))[1..] == Without(store[1..], k);
    }
  }

  lemma {:induction false} KeyAt(store: seq<WriteEntry>, k: Key) returns (i: nat)
    requires k in AsMap(store)
    ensures i < |store| && AsMap(store)[k] == store[i] && KeyOf(store[i]) == k
  {
    if KeyOf(store[0]) == k {
      i := 0;
    } else {
      i := KeyAt(store[1..], k);
      i := i + 1;
    }
  }

  lemma {:induction false} AtKey(store: seq<WriteEntry>, i: nat)
    requires i < |store|
    ensures KeyOf(store[i]) in AsMap(store)
    ensures UniqueKeys(store) ==> AsMap(store)[KeyOf(store[i])] == store[i]
  {
    if i > 0 {
      AtKey(store[1..], i - 1);
    }
  }

  lemma {:induction false} MapSize(store: seq<WriteEntry>)
    requires UniqueKeys(store)
    ensures |AsMap(store)| == |store|
  {
    if store != [] {
      MapSize(store[1..]);
    }
  }

  /** A listing has exactly one entry per record of the map. */
  lemma ListingListsMap(card: Card, store: seq<WriteEntry>, timestamp: u64)
    requires UniqueKeys(store)
    ensures Lists(card, AsMap(store), timestamp, Listing(card, store, timestamp))
  {
    var m, es := AsMap(store), Listing(card, store, timestamp);
    MapSize(store);
    forall k | k in m
      ensures Shown(card, m[k], timestamp) in es
    {
      var i := KeyAt(store, k);
      assert es[i] == Shown(card, m[k], timestamp);
    }
    forall i | 0 <= i < |es|
      ensures (es[i].appName, es[i].accountName) in m
      ensures es[i] == Shown(card, m[(es[i].appName, es[i].accountName)], timestamp)
    {
      AtKey(store, i);
    }
  }

  /** One call: what the token's records become, and that the outcome tells the truth about them. */
  lemma CallRefinesMap(card: Card, token: Token, ev: Event, fates: seq<Fate>)
    requires SoundCard(card) && UniqueKeys(token.store)
    requires Happened(card.p, ev) && Conforms(card, token, ev.log, fates) && |ev.log| == |fates|
    ensures MayBecome(AsMap(token.store), ev, AsMap(After(card, token, ev.log, fates).store))
    ensures UniqueKeys(After(card, token, ev.log, fates).store)
    ensures Truthful(card, AsMap(token.store), ev)
  {
    hide Conforms, After, Sealed, Erased, Enumerated, ReadEntryDone, Lists, Lost;
    match ev.call {
      case Write(secret, w) =>
        SealedApplies(card, token, secret, Put(w), ev.log, fates, ev.outcome.r);
        UpsertUpdatesMap(token.store, w);
      case Delete(secret, app, account) =>
        SealedApplies(card, token, secret, Remove(app, account), ev.log, fates, ev.outcome.r);
        WithoutUpdatesMap(token.store, (app, account));
      case Erase =>
        ErasesAll(card, token, ev.log, fates, ev.outcome.r);
      case Enumerate(ts) =>
        EnumerateIsListing(card, token, ts, ev.log, fates, ev.outcome.entries);
        ListingListsMap(card, token.store, ts);
      case Read(ts, k) =>
        ReadsStored(card, token, ts, k.0, k.1, ev.log, fates, ev.outcome.entry);
        ReadIsTruthful(card, token.store, ts, k, ev.outcome.entry);
    }
  }

  lemma ReadIsTruthful(card: Card, store: seq<WriteEntry>, timestamp: u64, k: Key, r: Result<Entry, Error>)
    requires UniqueKeys(store)
    requires r.Ok? ==> exists i :: 0 <= i < |store| && KeyOf(store[i]) == k && MayRead(card, store[i], timestamp, r.value)
    requires r == Err(Applet(EntryNotFound)) ==> forall i :: 0 <= i < |store| ==> KeyOf(store[i]) != k
    ensures r.Ok? ==> k in AsMap(store) && MayRead(card, AsMap(store)[k], timestamp, r.value)
    ensures r == Err(Applet(EntryNotFound)) ==> k !in AsMap(store)
  {
    if r.Ok? {
      var i :| 0 <= i < |store| && KeyOf(store[i]) == k && MayRead(card, store[i], timestamp, r.value);
      AtKey(store, i);
    } else if k in AsMap(store) {
      var i := KeyAt(store, k);
    }
  }

  /**
   Over every run of writes, deletes, erases, enumerations and reads, against any conforming
   token and over any link: each call has its effect on the token's records, as a map, if it
   succeeds, none if the token refuses it and one or the other if its answer is lost; and every
   enumeration and read tells the truth about the map at its moment.
   */
  lemma {:induction false} RunRefinesMap(card: Card, token: Token, evs: seq<Event>, fates: seq<seq<Fate>>)
    requires SoundCard(card) && UniqueKeys(token.store) && Run(card, token, evs, fates)
    ensures var maps := Maps(card, token, evs, fates);
            maps[0] == AsMap(token.store) &&
            forall i :: 0 <= i < |evs| ==> MayBecome(maps[i], evs[i], maps[i + 1]) && Truthful(card, maps[i], evs[i])
    decreases |evs|
  {
    hide Conforms, After, Happened, MayBecome, Truthful, SoundCard, AsMap, UniqueKeys;
    if evs != [] {
      var next := After(card, token, evs[0].log, fates[0]);
      CallRefinesMap(card, token, evs[0], fates[0]);
      RunRefinesMap(card, next, evs[1..], fates[1..]);
      var maps, later := Maps(card, token, evs, fates), Maps(card, next, evs[1..], fates[1..]);
      assert maps == [AsMap(token.store)] + later;
      forall i | 0 <= i < |evs|
        ensures MayBecome(maps[i], evs[i], maps[i + 1]) && Truthful(card, maps[i], evs[i])
      {
        if i > 0 {
          assert evs[i] == evs[1..][i - 1] && maps[i] == later[i - 1] && maps[i + 1] == later[i];
        }
      }
    }
  }

  /** If no change is in doubt, the map is the one the successful calls make. */
  lemma {:induction false} AnsweredRunIsMap(card: Card, token: Token, evs: seq<Event>, fates: seq<seq<Fate>>)
    requires SoundCard(card) && UniqueKeys(token.store) && Run(card, token, evs, fates)
    requires forall i :: 0 <= i < |evs| ==> !InDoubt(evs[i])
    ensures forall i :: 0 <= i <= |evs| ==> Maps(card, token, evs, fates)[i] == MapAfterAll(AsMap(token.store), evs[..i])
    decreases |evs|
  {
    hide Conforms, After, Happened, MapAfter, Truthful, SoundCard, AsMap, UniqueKeys, InDoubt;
    assert evs[..0] == [];
    if evs != [] {
      var next := After(card, token, evs[0].log, fates[0]);
      CallRefinesMap(card, token, evs[0], fates[0]);
      AnsweredRunIsMap(card, next, evs[1..], fates[1..]);
      forall i | 0 < i <= |evs|
        ensures Maps(card, token, evs, fates)[i] == MapAfterAll(AsMap(token.store), evs[..i])
      {
        assert evs[..i][1..] == evs[1..][..i - 1];
      }
    }
  }

  /** Makes one call on a session; what it exchanges and returns is an event. */
  method Perform(session: OtpSession, call: Call) returns (outcome: Outcome)
    requires KeepsLength(session.primitives) && ShortPoints(session.primitives)
    modifies session.transport
    ensures old(session.transport.log) <= session.transport.log
    ensures Happened(session.primitives, Event(call, session.transport.log[|old(session.transport.log)|..], outcome))
  {
    match call {
      case Write(secret, w) =>
        var r := session.WriteEntry(secret, w);
        outcome := Changed(r);
      case Delete(secret, app, account) =>
        var r := session.DeleteEntry(secret, app, account);
        outcome := Changed(r);
      case Erase =>
        var r := session.EraseAll();
        outcome := Changed(r);
      case Enumerate(ts) =>
        var es := session.Enumerate(ts);
        outcome := Listed(es);
      case Read(ts, k) =>
        var e := session.ReadEntry(ts, k.0, k.1);
        outcome := Found(e);
    }
  }

  /** The button prompt is armed in exactly the exchanges of a read and of an erase. */
  lemma PromptsExactly(p: Primitives, ev: Event, k: nat)
    requires Happened(p, ev) && k < |ev.log|
    ensures ev.log[k].detectButtonWait <==> ev.call.Read? || ev.call.Erase?
  {
    hide EnumAllApdu, EnumContinueApdu, EntriesOf, PageOf, ReadBody, ClearText, ReadOne, Seal, ValidCommand, ValidNames;
    if ev.call.Enumerate? && k > 0 {
      assert ev.log[1..][k - 1] == ev.log[k];
    }
  }

  /** The bytes each call sends: for a write or delete the key request, and the sealed body under its header. */
  lemma SendsExactly(p: Primitives, ev: Event)
    requires Happened(p, ev)
    ensures (ev.call.Write? || ev.call.Delete?) && ev.log != [] ==> ev.log[0].apdu == [0x80, 0xC5, 0x01, 0x00, 0x00]
    ensures (ev.call.Write? || ev.call.Delete?) && |ev.log| == 2 ==>
              ev.log[0].reply.Ok? && [0x80, 0xC5, 0x05, 0x02] <= ev.log[1].apdu
    ensures ev.call.Erase? ==> |ev.log| == 1 && ev.log[0].apdu == [0x80, 0xC5, 0x05, 0x02]
    ensures ev.call.Enumerate? ==>
              ev.log != [] &&
              ev.log[0].apdu == [0x80, 0xC5, 0x05, 0x00, 0x00, 0x00, 0x09, 0x03] + U64Be(ev.call.timestamp) &&
              forall k :: 1 <= k < |ev.log| ==>
                ev.log[k].apdu == [0x80, 0xC5, 0x05, 0x01, 0x00, 0x00, 0x08] + U64Be(ev.call.timestamp)
    ensures ev.call.Read? && ev.log != [] ==> |ev.log| == 1 && [0x80, 0xC5, 0x05, 0x00, 0x00] <= ev.log[0].apdu
  {
    CommandBytes(match ev.call case Enumerate(ts) => ts case _ => 0);
    hide EnumAllApdu, EnumContinueApdu, EntriesOf, PageOf, ReadBody, ClearText, ReadOne, Seal, ValidCommand, ValidNames, U64Be,
         ERASE_ALL, GET_PUBKEY;
    if ev.call.Enumerate? {
      forall k | 1 <= k < |ev.log|
        ensures ev.log[k].apdu == EnumContinueApdu(ev.call.timestamp)
      {
        assert ev.log[1..][k - 1] == ev.log[k];
      }
    }
  }

  // ------------------------------------------------- conforming tokens exist

  lemma OneAnswerConforms(card: Card, token: Token, x: Exchange, fate: Fate, more: seq<Exchange>, fates: seq<Fate>)
    requires SoundCard(card) && ValidStore(token.store) && ValidStore(token.pending) && Carries(x.reply, fate)
    requires fate.Some? ==> Allowed(card, token, RequestOf(card, x.apdu), fate.value.0, fate.value.1)
    requires Conforms(card, Did(card, token, x.apdu, fate), more, fates)
    ensures Conforms(card, token, [x] + more, [fate] + fates)
  {
    hide RequestOf, Allowed, Did, SoundCard, Carries;
    assert ([x] + more)[1..] == more && ([fate] + fates)[1..] == fates;
  }

  /** A token can answer a read of any record with its code, and a HOTP record with any code at all. */
  lemma ReadCanBeAnswered(card: Card, token: Token, timestamp: u64, i: nat, e: Entry)
    requires SoundCard(card) && ValidStore(token.store) && ValidStore(token.pending)
    requires i < |token.store| && MayRead(card, token.store[i], timestamp, e)
    ensures var (app, account) := KeyOf(token.store[i]);
            ValidNames(app, account) && WellFormed(e, true) && |ReadBody(timestamp, app, account)| <= 0xFFFF &&
            var answer := (EncodeEntry(e, true), SW_OK);
            var log := [Exchange(Apdu(ENUM_CODES, ReadBody(timestamp, app, account)), true, Ok(answer))];
            Conforms(card, token, log, [Some(answer)]) && After(card, token, log, [Some(answer)]) == token &&
            ReadEntryDone(timestamp, app, account, log, Ok(e))
  {
    var (app, account) := KeyOf(token.store[i]);
    assert ValidNames(app, account) && WellFormed(e, true);
    hide RequestOf, ReadOne, ReadBody, EncodeEntry, WellFormed, ValidNames, SoundCard, Apdu, ValidStore, MayRead;
    RequestRead(card, timestamp, app, account);
    var answer := (EncodeEntry(e, true), SW_OK);
    var x := Exchange(Apdu(ENUM_CODES, ReadBody(timestamp, app, account)), true, Ok(answer));
    ReadOneIff(answer.0, e);
    assert EncodeEntry(e, true) + [] == EncodeEntry(e, true);
    OneAnswerConforms(card, token, x, Some(answer), [], []);
    assert [x] + [] == [x] && [Some(answer)] + [] == [Some(answer)];
  }

  lemma {:induction false} UpsertKeepsValid(store: seq<WriteEntry>, w: WriteEntry)
    requires ValidStore(store) && ValidWrite(w)
    ensures ValidStore(Upsert(store, w))
  {
    hide ValidWrite;
    if store != [] {
      UpsertKeepsValid(store[1..], w);
    }
  }

  lemma {:induction false} WithoutKeepsValid(store: seq<WriteEntry>, k: Key)
    requires ValidStore(store)
    ensures ValidStore(Without(store, k))
  {
    hide ValidWrite;
    if store != [] {
      WithoutKeepsValid(store[1..], k);
    }
  }

  /** Valid commands keep every stored record valid. */
  lemma ApplyKeepsValid(c: Command, store: seq<WriteEntry>)
    requires ValidStore(store) && ValidCommand(c)
    ensures ValidStore(Apply(c, store))
  {
    hide ValidWrite, ValidNames;
    match c {
      case Put(w) => UpsertKeepsValid(store, w);
      case Remove(app, account) => WithoutKeepsValid(store, (app, account));
    }
  }

  /**
   A conforming token can accept every valid write and delete; and whether the command or only
   its answer is lost, the caller sees the same.
   */
  lemma CommandCanBeAccepted(card: Card, token: Token, secret: nat, c: Command)
    requires SoundCard(card) && ValidStore(token.store) && ValidStore(token.pending) && ValidCommand(c)
    ensures Seal(card.p, secret, card.pub, ClearText(c)).Ok?
    ensures |Seal(card.p, secret, card.pub, ClearText(c)).value| <= 0xFFFF
    ensures var apdu := Apdu(WRITE_SEED, Seal(card.p, secret, card.pub, ClearText(c)).value);
            var key, done: Fate := Some((card.pub, SW_OK)), Some(([], SW_OK));
            var one := Exchange(GET_PUBKEY, false, Ok((card.pub, SW_OK)));
            var log := [one, Exchange(apdu, false, Ok(([], SW_OK)))];
            var lost := [one, Exchange(apdu, false, Err(Transport))];
            Conforms(card, token, log, [key, done]) && Sealed(card.p, secret, c, log, Ok(())) &&
            Conforms(card, token, lost, [key, done]) && Conforms(card, token, lost, [key, None]) &&
            Sealed(card.p, secret, c, lost, Err(Transport))
  {
    hide RequestOf, Seal, ClearText, Apply, ValidCommand, SoundCard, Apdu;
    ApplyKeepsValid(c, token.store);
    RequestSealed(card, secret, c);
    var apdu := Apdu(WRITE_SEED, Seal(card.p, secret, card.pub, ClearText(c)).value);
    Accepts(card, token, apdu, c, Exchange(apdu, false, Ok(([], SW_OK))), Some(([], SW_OK)));
    Accepts(card, token, apdu, c, Exchange(apdu, false, Err(Transport)), Some(([], SW_OK)));
    Accepts(card, token, apdu, c, Exchange(apdu, false, Err(Transport)), None);
  }

  lemma Accepts(card: Card, token: Token, apdu: seq<byte>, c: Command, x: Exchange, fate: Fate)
    requires SoundCard(card) && ValidStore(token.store) && ValidStore(token.pending)
    requires ValidStore(Apply(c, token.store)) && RequestOf(card, apdu) == Change(c) && x.apdu == apdu
    requires Carries(x.reply, fate) && (fate.Some? ==> fate == Some(([], SW_OK)))
    ensures Conforms(card, token, [Exchange(GET_PUBKEY, false, Ok((card.pub, SW_OK))), x], [Some((card.pub, SW_OK)), fate])
  {
    hide RequestOf, Apply, SoundCard;
    RequestPubKey(card);
    var one := Exchange(GET_PUBKEY, false, Ok((card.pub, SW_OK)));
    assert Conforms(card, Did(card, token, apdu, fate), [], []);
    OneAnswerConforms(card, token, x, fate, [], []);
    assert [x] + [] == [x] && [fate] + [] == [fate];
    OneAnswerConforms(card, token, one, Some((card.pub, SW_OK)), [x], [fate]);
    assert [one] + [x] == [one, x] && [Some((card.pub, SW_OK))] + [fate] == [Some((card.pub, SW_OK)), fate];
  }
}
