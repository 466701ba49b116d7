/**
 OTP records: the pages and single records the device returns, which carry no length
 prefix, and the clear texts the host sends. Names and codes are the bytes of the
 source's strings.
 */
module Entry {
  import opened Bytes
  import opened Proto

  datatype OtpType = Hotp | Totp {
    function ToByte(): byte {
      if Hotp? then 0x00 else 0x01
    }
  }

  datatype Algorithm = Sha1 | Sha256 {
    function ToByte(): byte {
      if Sha1? then 0xC1 else 0xC2
    }
  }

  function TypeFromByte(b: byte): (r: Option<OtpType>)
    ensures forall t: OtpType :: r == Some(t) <==> t.ToByte() == b
  {
    if b == 0x00 then Some(Hotp) else if b == 0x01 then Some(Totp) else None
  }

  function AlgorithmFromByte(b: byte): (r: Option<Algorithm>)
    ensures forall a: Algorithm :: r == Some(a) <==> a.ToByte() == b
  {
    if b == 0xC1 then Some(Sha1) else if b == 0xC2 then Some(Sha256) else None
  }

  /** The six fixed bytes that open every record. */
  datatype OtpParams = OtpParams(otpType: OtpType, algorithm: Algorithm, timestep: u16, codeLength: byte, buttonRequired: bool)

  datatype Entry = Entry(config: OtpParams, appName: seq<byte>, accountName: seq<byte>, code: Option<seq<byte>>)

  datatype WriteEntry = WriteEntry(config: OtpParams, appName: seq<byte>, accountName: seq<byte>, seed: seq<byte>)

  datatype EnumPage = EnumPage(entries: seq<Entry>, morePages: bool)

  // ------------------------------------------------------ reference encoding

  function EncodeConfig(c: OtpParams): (s: seq<byte>)
    ensures |s| == 6
  {
    [c.otpType.ToByte(), c.algorithm.ToByte()] + U16Be(c.timestep) +
    [c.codeLength, if c.buttonRequired then 0x01 else 0x00]
  }

  function EncodeField(f: seq<byte>): seq<byte>
    requires |f| <= 0xFF
  {
    [|f|] + f
  }

  /** A name or code as a record can hold it. */
  predicate IsText(f: seq<byte>) {
    IsAscii(f) && |f| <= 0xFF
  }

  /** The device sends the code unless the entry is HOTP or wants a button press. */
  predicate HasCode(c: OtpParams, forceCode: bool) {
    forceCode || (c.otpType.Totp? && !c.buttonRequired)
  }

  predicate WellFormed(e: Entry, forceCode: bool) {
    && IsText(e.appName)
    && IsText(e.accountName) && e.accountName != []
    && e.code.Some? == HasCode(e.config, forceCode)
    && (e.code.Some? ==> IsText(e.code.value))
  }

  function EncodeEntry(e: Entry, forceCode: bool): seq<byte>
    requires WellFormed(e, forceCode)
  {
    EncodeConfig(e.config) + EncodeField(e.appName) + EncodeField(e.accountName) +
    if e.code.Some? then EncodeField(e.code.value) else []
  }

  ghost predicate AllWellFormed(es: seq<Entry>) {
    forall i :: 0 <= i < |es| ==> WellFormed(es[i], false)
  }

  ghost function EncodeEntries(es: seq<Entry>): seq<byte>
    requires AllWellFormed(es)
  {
    if es == [] then [] else EncodeEntry(es[0], false) + EncodeEntries(es[1..])
  }

  /** The first byte of a page doubles as the first record's type and the more-pages bit. */
  ghost function EncodePage(page: EnumPage): seq<byte>
    requires page.entries != [] && AllWellFormed(page.entries)
  {
    var s := EncodeEntries(page.entries);
    [if page.morePages then s[0] + 0x80 else s[0]] + s[1..]
  }

  // ---------------------------------------------------------- reading, as a function of the rest

  function ReadByte(s: seq<byte>): Result<(byte, seq<byte>), ParseError> {
    if s == [] then Err(Truncated) else Ok((s[0], s[1..]))
  }

  function ReadText(s: seq<byte>, n: nat): Result<(seq<byte>, seq<byte>), ParseError> {
    if n > |s| then Err(Truncated)
    else if !IsAscii(s[..n]) then Err(Malformed)
    else Ok((s[..n], s[n..]))
  }

  function ReadConfig(s: seq<byte>): Result<(OtpParams, seq<byte>), ParseError> {
    if |s| < 1 then Err(Truncated)
    else if TypeFromByte(s[0]).None? then Err(Malformed)
    else if |s| < 2 then Err(Truncated)
    else if AlgorithmFromByte(s[1]).None? then Err(Malformed)
    else if |s| < 6 then Err(Truncated)
    else if s[5] > 1 then Err(Malformed)
    else Ok((OtpParams(TypeFromByte(s[0]).value, AlgorithmFromByte(s[1]).value,
                    U16OfBe(s[2], s[3]), s[4], s[5] == 1), s[6..]))
  }

  function ReadField(s: seq<byte>, allowEmpty: bool): Result<(seq<byte>, seq<byte>), ParseError> {
    if s == [] then Err(Truncated)
    else if s[0] == 0 && !allowEmpty then Err(Malformed)
    else ReadText(s[1..], s[0])
  }

  /** One record off the front of `s`, and what is left. */
  function ReadEntry(s: seq<byte>, forceCode: bool): Result<(Entry, seq<byte>), ParseError> {
    var (config, s1) :- ReadConfig(s);
    var (app, s2) :- ReadField(s1, true);
    var (account, s3) :- ReadField(s2, false);
    if HasCode(config, forceCode) then
      var (code, s4) :- ReadField(s3, true);
      Ok((Entry(config, app, account, Some(code)), s4))
    else
      Ok((Entry(config, app, account, None), s3))
  }

  /** Every record takes at least nine bytes. */
  lemma NineBytes(s: seq<byte>, forceCode: bool)
    requires ReadEntry(s, forceCode).Ok?
    ensures |ReadEntry(s, forceCode).value.1| + 9 <= |s|
  {
  }

  ghost function ReadEntries(s: seq<byte>): Result<seq<Entry>, ParseError>
    decreases |s|
  {
    if s == [] then Ok([])
    else
      match ReadEntry(s, false)
      case Err(x) => Err(x)
      case Ok((e, rest)) =>
        NineBytes(s, false);
        match ReadEntries(rest)
        case Err(x) => Err(x)
        case Ok(es) => Ok([e] + es)
  }

  ghost function ReadPage(data: seq<byte>): Result<EnumPage, ParseError> {
    if data == [] then Err(Truncated)
    else
      match ReadEntries([data[0] % 0x80] + data[1..])
      case Err(x) => Err(x)
      case Ok(es) => Ok(EnumPage(es, data[0] >= 0x80))
  }

  function ReadOne(data: seq<byte>): Result<Entry, ParseError> {
    match ReadEntry(data, true)
    case Err(x) => Err(x)
    case Ok((e, _)) => Ok(e)
  }

  // --------------------------------------------------- reading, as the program does

  /** A length-checked forward cursor. */
  class Cursor {
    const buf: seq<byte>
    var pos: nat

    ghost predicate Valid()
      reads this
    {
      pos <= |buf|
    }

    ghost function Rest(): seq<byte>
      reads this
      requires Valid()
    {
      buf[pos..]
    }

    constructor (data: seq<byte>)
      ensures Valid() && Rest() == data
    {
      buf, pos := data, 0;
    }

    method AtEnd() returns (r: bool)
      requires Valid()
      ensures r <==> Rest() == []
    {
      r := pos >= |buf|;
    }

    method U8() returns (r: Result<byte, ParseError>)
      requires Valid()
      modifies this
      ensures Valid()
      ensures r == (match old(ReadByte(Rest())) case Err(x) => Err(x) case Ok((b, _)) => Ok(b))
      ensures r.Ok? ==> Rest() == old(Rest())[1..]
    {
      if pos >= |buf| {
        return Err(Truncated);
      }
      r := Ok(buf[pos]);
      pos := pos + 1;
    }

    method U16BigEndian() returns (r: Result<u16, ParseError>)
      requires Valid()
      modifies this
      ensures Valid()
      ensures r == if |old(Rest())| < 2 then Err(Truncated) else Ok(U16OfBe(old(Rest())[0], old(Rest())[1]))
      ensures r.Ok? ==> Rest() == old(Rest())[2..]
    {
      var hi :- U8();
      var lo :- U8();
      r := Ok(U16OfBe(hi, lo));
    }

    method Ascii(n: nat) returns (r: Result<seq<byte>, ParseError>)
      requires Valid()
      modifies this
      ensures Valid()
      ensures r == (match old(ReadText(Rest(), n)) case Err(x) => Err(x) case Ok((t, _)) => Ok(t))
      ensures r.Ok? ==> Rest() == old(Rest())[n..]
    {
      var end := pos + n;
      if end > |buf| {
        return Err(Truncated);
      }
      var slice := buf[pos..end];
      assert slice == Rest()[..n];
      if !IsAscii(slice) {
        return Err(Malformed);
      }
      pos := end;
      r := Ok(slice);
    }
  }

  method ParseConfig(c: Cursor) returns (r: Result<OtpParams, ParseError>)
    requires c.Valid()
    modifies c
    ensures c.Valid()
    ensures r == (match old(ReadConfig(c.Rest())) case Err(x) => Err(x) case Ok((f, _)) => Ok(f))
    ensures r.Ok? ==> c.Rest() == old(c.Rest())[6..]
  {
    var typeByte :- c.U8();
    var otpType := TypeFromByte(typeByte);
    if otpType.None? {
      return Err(Malformed);
    }
    var algorithmByte :- c.U8();
    var algorithm := AlgorithmFromByte(algorithmByte);
    if algorithm.None? {
      return Err(Malformed);
    }
    var timestep :- c.U16BigEndian();
    var codeLength :- c.U8();
    var button :- c.U8();
    if button > 1 {
      return Err(Malformed);
    }
    r := Ok(OtpParams(otpType.value, algorithm.value, timestep, codeLength, button == 1));
  }

  method ParseField(c: Cursor, allowEmpty: bool) returns (r: Result<seq<byte>, ParseError>)
    requires c.Valid()
    modifies c
    ensures c.Valid()
    ensures match old(ReadField(c.Rest(), allowEmpty))
            case Err(x) => r == Err(x)
            case Ok((f, rest)) => r == Ok(f) && c.Rest() == rest
  {
    var len :- c.U8();
    if len == 0 && !allowEmpty {
      return Err(Malformed);
    }
    r := c.Ascii(len);
  }

  method ParseOneEntry(c: Cursor, forceCode: bool) returns (r: Result<Entry, ParseError>)
    requires c.Valid()
    modifies c
    ensures c.Valid()
    ensures match old(ReadEntry(c.Rest(), forceCode))
            case Err(x) => r == Err(x)
            case Ok((e, rest)) => r == Ok(e) && c.Rest() == rest
  {
    var config :- ParseConfig(c);
    var appName :- ParseField(c, true);
    var accountName :- ParseField(c, false);
    var hasCode := forceCode || (config.otpType.Totp? && !config.buttonRequired);
    var code: Option<seq<byte>> := None;
    if hasCode {
      var text :- ParseField(c, true);
      code := Some(text);
    }
    r := Ok(Entry(config, appName, accountName, code));
  }

  /** The records read so far, followed by the outcome of reading on. */
  ghost function FollowedBy(es: seq<Entry>, r: Result<seq<Entry>, ParseError>): Result<seq<Entry>, ParseError> {
    match r
    case Err(x) => Err(x)
    case Ok(more) => Ok(es + more)
  }

  lemma FollowedByOne(es: seq<Entry>, e: Entry, r: Result<seq<Entry>, ParseError>)
    ensures FollowedBy(es, FollowedBy([e], r)) == FollowedBy(es + [e], r)
  {
    if r.Ok? {
      assert es + ([e] + r.value) == es + [e] + r.value;
    }
  }

  method ParseEnumPage(data: seq<byte>) returns (r: Result<EnumPage, ParseError>)
    ensures r == ReadPage(data)
  {
    if data == [] {
      return Err(Truncated);
    }
    var morePages := data[0] >= 0x80;
    var stream := [data[0] % 0x80] + data[1..];
    var cursor := new Cursor(stream);
    var entries := [];
    assert FollowedBy(entries, ReadEntries(stream)) == ReadEntries(stream) by {
      if ReadEntries(stream).Ok? {
        assert [] + ReadEntries(stream).value == ReadEntries(stream).value;
      }
    }
    var atEnd := cursor.AtEnd();
    while !atEnd
      invariant cursor.Valid() && (atEnd <==> cursor.Rest() == [])
      invariant ReadEntries(stream) == FollowedBy(entries, ReadEntries(cursor.Rest()))
      decreases |cursor.Rest()|
    {
      ghost var rest := cursor.Rest();
      var e := ParseOneEntry(cursor, false);
      if e.Err? {
        return Err(e.error);
      }
      NineBytes(rest, false);
      FollowedByOne(entries, e.value, ReadEntries(cursor.Rest()));
      entries := entries + [e.value];
      atEnd := cursor.AtEnd();
    }
    assert entries + [] == entries;
    r := Ok(EnumPage(entries, morePages));
  }

  method ParseReadOne(data: seq<byte>) returns (r: Result<Entry, ParseError>)
    ensures r == ReadOne(data)
  {
    var cursor := new Cursor(data);
    r := ParseOneEntry(cursor, true);
  }

  // ------------------------------------------------------ the reader inverts the encoding

  lemma ConfigIff(s: seq<byte>, c: OtpParams, rest: seq<byte>)
    ensures ReadConfig(s) == Ok((c, rest)) <==> s == EncodeConfig(c) + rest
  {
    hide U16Be, U16OfBe;
    if ReadConfig(s) == Ok((c, rest)) {
      U16Inverse(s[2], s[3]);
      assert s[..6] == EncodeConfig(c);
      assert s == s[..6] + s[6..];
    }
    if s == EncodeConfig(c) + rest {
      U16RoundTrip(c.timestep, [s[2], s[3]]);
      assert s[6..] == rest;
    }
  }

  lemma FieldIff(s: seq<byte>, allowEmpty: bool, f: seq<byte>, rest: seq<byte>)
    ensures ReadField(s, allowEmpty) == Ok((f, rest)) <==>
            IsText(f) && (allowEmpty || f != []) && s == EncodeField(f) + rest
  {
    hide ReadField, EncodeField, IsAscii;
    if ReadField(s, allowEmpty) == Ok((f, rest)) {
      FieldReadIsEncoded(s, allowEmpty);
    }
    if IsText(f) && (allowEmpty || f != []) && s == EncodeField(f) + rest {
      FieldEncodedIsRead(f, allowEmpty, rest);
    }
  }

  lemma FieldReadIsEncoded(s: seq<byte>, allowEmpty: bool)
    requires ReadField(s, allowEmpty).Ok?
    ensures var (f, rest) := ReadField(s, allowEmpty).value;
            IsText(f) && (allowEmpty || f != []) && s == EncodeField(f) + rest
  {
    var (f, rest) := ReadField(s, allowEmpty).value;
    assert s[1..] == f + rest;
    assert s == [s[0]] + s[1..];
  }

  lemma FieldEncodedIsRead(f: seq<byte>, allowEmpty: bool, rest: seq<byte>)
    requires IsText(f) && (allowEmpty || f != [])
    ensures ReadField(EncodeField(f) + rest, allowEmpty) == Ok((f, rest))
  {
    var s := EncodeField(f) + rest;
    assert s[1..] == f + rest;
    assert s[1..][..|f|] == f && s[1..][|f|..] == rest;
  }

  lemma EncodingRead(e: Entry, forceCode: bool, rest: seq<byte>)
    requires WellFormed(e, forceCode)
    ensures ReadEntry(EncodeEntry(e, forceCode) + rest, forceCode) == Ok((e, rest))
  {
    hide EncodeConfig, EncodeField, ReadConfig, ReadField, IsAscii;
    var s3 := (if e.code.Some? then EncodeField(e.code.value) else []) + rest;
    var s2 := EncodeField(e.accountName) + s3;
    var s1 := EncodeField(e.appName) + s2;
    var s := EncodeEntry(e, forceCode) + rest;
    assert s == EncodeConfig(e.config) + s1;
    ConfigIff(s, e.config, s1);
    FieldIff(s1, true, e.appName, s2);
    FieldIff(s2, false, e.accountName, s3);
    if e.code.Some? {
      FieldIff(s3, true, e.code.value, rest);
    } else {
      assert s3 == rest;
    }
  }

  lemma ReadIsEncoding(s: seq<byte>, forceCode: bool)
    requires ReadEntry(s, forceCode).Ok?
    ensures var (e, rest) := ReadEntry(s, forceCode).value;
            WellFormed(e, forceCode) && s == EncodeEntry(e, forceCode) + rest
  {
    hide EncodeConfig, EncodeField, ReadConfig, ReadField, IsAscii;
    var (e, rest) := ReadEntry(s, forceCode).value;
    var s1 := ReadConfig(s).value.1;
    var s2 := ReadField(s1, true).value.1;
    var s3 := ReadField(s2, false).value.1;
    ConfigIff(s, e.config, s1);
    FieldIff(s1, true, e.appName, s2);
    FieldIff(s2, false, e.accountName, s3);
    assert s == EncodeConfig(e.config) + (EncodeField(e.appName) + (EncodeField(e.accountName) + s3));
    if HasCode(e.config, forceCode) {
      var (code, s4) := ReadField(s3, true).value;
      FieldIff(s3, true, code, s4);
      assert e.code == Some(code) && rest == s4;
      assert WellFormed(e, forceCode);
    } else {
      assert WellFormed(e, forceCode) && s3 == [] + rest;
    }
  }

  /** One record is read off the front exactly when the front is the encoding of a well-formed record. */
  lemma EntryIff(s: seq<byte>, forceCode: bool, e: Entry, rest: seq<byte>)
    ensures ReadEntry(s, forceCode) == Ok((e, rest)) <==>
            WellFormed(e, forceCode) && s == EncodeEntry(e, forceCode) + rest
  {
    hide ReadEntry, WellFormed, EncodeEntry;
    if ReadEntry(s, forceCode) == Ok((e, rest)) {
      ReadIsEncoding(s, forceCode);
    }
    if WellFormed(e, forceCode) && s == EncodeEntry(e, forceCode) + rest {
      EncodingRead(e, forceCode, rest);
    }
  }

  /** READ_ONE: accepted exactly when the data starts with a well-formed record, code included. */
  lemma ReadOneIff(data: seq<byte>, e: Entry)
    ensures ReadOne(data) == Ok(e) <==> WellFormed(e, true) && EncodeEntry(e, true) <= data
  {
    hide ReadEntry, WellFormed, EncodeEntry;
    if ReadEntry(data, true).Ok? {
      ReadIsEncoding(data, true);
    }
    if WellFormed(e, true) && EncodeEntry(e, true) <= data {
      var n := |EncodeEntry(e, true)|;
      EncodingRead(e, true, data[n..]);
      assert data == EncodeEntry(e, true) + data[n..];
    }
  }

  lemma {:induction false} EntriesEncodingRead(es: seq<Entry>)
    requires AllWellFormed(es)
    ensures ReadEntries(EncodeEntries(es)) == Ok(es)
    ensures 9 * |es| <= |EncodeEntries(es)|
  {
    hide ReadEntry, WellFormed, EncodeEntry;
    if es != [] {
      var rest := EncodeEntries(es[1..]);
      EntriesEncodingRead(es[1..]);
      EncodingRead(es[0], false, rest);
      NineBytes(EncodeEntries(es), false);
      assert es == [es[0]] + es[1..];
    }
  }

  lemma {:induction false} EntriesReadIsEncoding(s: seq<byte>)
    requires ReadEntries(s).Ok?
    ensures AllWellFormed(ReadEntries(s).value) && s == EncodeEntries(ReadEntries(s).value)
    decreases |s|
  {
    hide ReadEntry, WellFormed, EncodeEntry;
    if s != [] {
      var (e, rest) := ReadEntry(s, false).value;
      NineBytes(s, false);
      ReadIsEncoding(s, false);
      EntriesReadIsEncoding(rest);
      var es := ReadEntries(rest).value;
      assert ReadEntries(s).value == [e] + es && ([e] + es)[1..] == es;
    }
  }

  lemma FirstByte(es: seq<Entry>)
    requires es != [] && AllWellFormed(es)
    ensures EncodeEntries(es) != [] && EncodeEntries(es)[0] < 0x80
  {
    assert EncodeEntries(es) == EncodeEntry(es[0], false) + EncodeEntries(es[1..]);
    assert EncodeEntry(es[0], false)[0] == es[0].config.otpType.ToByte();
  }

  /** The page reader is a bijection between pages of at least one well-formed record and their encodings. */
  lemma PageIff(data: seq<byte>, page: EnumPage)
    ensures ReadPage(data) == Ok(page) <==>
            page.entries != [] && AllWellFormed(page.entries) && data == EncodePage(page)
  {
    hide WellFormed, EncodeEntries, ReadEntries;
    if ReadPage(data) == Ok(page) {
      var stream := [data[0] % 0x80] + data[1..];
      EntriesReadIsEncoding(stream);
      assert page.entries != [] by {
        assert EncodeEntries([]) == [] by { EmptyEncoding(); }
      }
      assert data == [data[0]] + data[1..];
      assert data == EncodePage(page);
    }
    if page.entries != [] && AllWellFormed(page.entries) && data == EncodePage(page) {
      var s := EncodeEntries(page.entries);
      FirstByte(page.entries);
      EntriesEncodingRead(page.entries);
      assert [data[0] % 0x80] + data[1..] == s;
    }
  }

  lemma EmptyEncoding()
    ensures EncodeEntries([]) == []
  {
  }

  /** A parsed page holds at most one record for every nine bytes. */
  lemma PageSize(data: seq<byte>)
    requires ReadPage(data).Ok?
    ensures 9 * |ReadPage(data).value.entries| <= |data|
  {
    hide EncodeEntries, ReadEntries, WellFormed;
    var page := ReadPage(data).value;
    PageIff(data, page);
    EntriesEncodingRead(page.entries);
  }

  // ------------------------------------------------------- records, exactly

  /** A record of a page has a code exactly if it is time-based and wants no button press. */
  lemma PageCodes(data: seq<byte>)
    requires ReadPage(data).Ok?
    ensures forall e :: e in ReadPage(data).value.entries ==>
              (e.code.Some? <==> e.config.otpType.Totp? && !e.config.buttonRequired)
  {
    hide ReadPage, EncodePage;
    var page := ReadPage(data).value;
    PageIff(data, page);
    forall e | e in page.entries
      ensures e.code.Some? <==> e.config.otpType.Totp? && !e.config.buttonRequired
    {
      var i :| 0 <= i < |page.entries| && page.entries[i] == e;
      assert WellFormed(page.entries[i], false);
    }
  }

  /** A record read on its own always has its code. */
  lemma ReadOneHasCode(data: seq<byte>)
    requires ReadOne(data).Ok?
    ensures ReadOne(data).value.code.Some?
  {
    hide EncodeEntry;
    ReadOneIff(data, ReadOne(data).value);
  }

  /** A record on its own is refused for what is wrong with it, and what follows it does not matter. */
  lemma ReadOneRefused(data: seq<byte>)
    ensures ReadOne(data) == Err(Malformed) <==> Fault(data, true)
    ensures ReadOne(data).Err? ==> ReadOne(data).error == if Fault(data, true) then Malformed else Truncated
  {
    hide ReadEntry, Fault;
    MalformedIff(data, true);
  }

  /** Every byte of a record: type, algorithm, time step, digits, button, and the fields with their lengths. */
  lemma RecordBytes(e: Entry, forceCode: bool)
    requires WellFormed(e, forceCode)
    ensures var (s, a, b) := (EncodeEntry(e, forceCode), |e.appName|, |e.accountName|);
            && s[0] == (if e.config.otpType.Totp? then 0x01 else 0x00)
            && s[1] == (if e.config.algorithm.Sha1? then 0xC1 else 0xC2)
            && s[2] as int * 0x100 + s[3] as int == e.config.timestep
            && s[4] == e.config.codeLength && s[5] == (if e.config.buttonRequired then 0x01 else 0x00)
            && s[6] == a && s[7..7 + a] == e.appName && s[7 + a] == b && s[8 + a..8 + a + b] == e.accountName
            && if forceCode || (e.config.otpType.Totp? && !e.config.buttonRequired)
               then s[8 + a + b..] == [|e.code.value|] + e.code.value
               else s[8 + a + b..] == []
  {
    hide HasCode;
    var (s, a, b) := (EncodeEntry(e, forceCode), |e.appName|, |e.accountName|);
    assert s[7..7 + a] == e.appName;
    assert s[8 + a..8 + a + b] == e.accountName;
    CodeRule(e.config, forceCode);
  }

  lemma CodeRule(c: OtpParams, forceCode: bool)
    ensures HasCode(c, forceCode) <==> forceCode || (c.otpType.Totp? && !c.buttonRequired)
  {
  }

  /** What a record that was read looks like: ASCII fields of at most 255 bytes, and an account. */
  lemma ReadIsText(s: seq<byte>, forceCode: bool)
    requires ReadEntry(s, forceCode).Ok?
    ensures var e := ReadEntry(s, forceCode).value.0;
            && |e.appName| <= 255 && 1 <= |e.accountName| <= 255
            && (forall i :: 0 <= i < |e.appName| ==> e.appName[i] < 0x80)
            && (forall i :: 0 <= i < |e.accountName| ==> e.accountName[i] < 0x80)
            && (e.code.Some? ==> |e.code.value| <= 255 && forall i :: 0 <= i < |e.code.value| ==> e.code.value[i] < 0x80)
  {
    ReadIsEncoding(s, forceCode);
    hide ReadEntry, EncodeEntry;
  }

  /** The first byte of a page is the type of its first record, and 0x80 more if further pages follow. */
  lemma PageBytes(page: EnumPage)
    requires page.entries != [] && AllWellFormed(page.entries)
    ensures var (s, data) := (EncodeEntries(page.entries), EncodePage(page));
            |data| == |s| && data[1..] == s[1..] &&
            data[0] == (if page.morePages then 0x80 else 0x00) +
                       (if page.entries[0].config.otpType.Totp? then 0x01 else 0x00)
  {
    hide WellFormed;
    FirstByte(page.entries);
    assert WellFormed(page.entries[0], false);
    RecordBytes(page.entries[0], false);
  }

  // -- what is refused

  /** A field whose bytes are there but not all ASCII. */
  predicate BadField(s: seq<byte>) {
    s != [] && s[0] < |s| && exists i :: 1 <= i <= s[0] && s[i] >= 0x80
  }

  lemma FieldMalformedIff(s: seq<byte>, allowEmpty: bool)
    ensures ReadField(s, allowEmpty) == Err(Malformed) <==> BadField(s) || (s != [] && s[0] == 0 && !allowEmpty)
    ensures ReadField(s, allowEmpty).Err? ==> ReadField(s, allowEmpty).error in {Truncated, Malformed}
  {
    if s != [] && s[0] < |s| {
      var f := s[1..][..s[0]];
      assert forall i :: 0 <= i < |f| ==> f[i] == s[i + 1];
      if BadField(s) {
        var i :| 1 <= i <= s[0] && s[i] >= 0x80;
        assert f[i - 1] >= 0x80;
      }
    }
  }

  /** A record is malformed for its type, its algorithm, its button flag, a bad name, an empty account or a bad code. */
  ghost predicate Fault(s: seq<byte>, forceCode: bool) {
    || (|s| >= 1 && s[0] > 0x01)
    || (|s| >= 2 && s[0] <= 0x01 && s[1] != 0xC1 && s[1] != 0xC2)
    || (|s| >= 6 && s[0] <= 0x01 && (s[1] == 0xC1 || s[1] == 0xC2) && s[5] > 0x01)
    || exists c: OtpParams, rest: seq<byte> :: s == EncodeConfig(c) + rest && NamesFault(c, rest, forceCode)
  }

  ghost predicate NamesFault(c: OtpParams, s: seq<byte>, forceCode: bool) {
    BadField(s) || exists app: seq<byte>, rest: seq<byte> ::
      IsText(app) && s == [|app|] + app + rest && AccountFault(c, rest, forceCode)
  }

  ghost predicate AccountFault(c: OtpParams, s: seq<byte>, forceCode: bool) {
    BadField(s) || (s != [] && s[0] == 0x00) ||
    ((forceCode || (c.otpType.Totp? && !c.buttonRequired)) &&
     exists account: seq<byte>, rest: seq<byte> ::
       IsText(account) && account != [] && s == [|account|] + account + rest && BadField(rest))
  }

  lemma AccountFaultIff(c: OtpParams, s: seq<byte>, forceCode: bool)
    ensures AccountFault(c, s, forceCode) <==>
            ReadField(s, false) == Err(Malformed) ||
            (ReadField(s, false).Ok? && HasCode(c, forceCode) && ReadField(ReadField(s, false).value.1, true) == Err(Malformed))
  {
    hide ReadField, BadField, IsText, HasCode;
    CodeRule(c, forceCode);
    FieldMalformedIff(s, false);
    if ReadField(s, false).Ok? {
      var (account, rest) := ReadField(s, false).value;
      FieldIff(s, false, account, rest);
      FieldMalformedIff(rest, true);
    }
    forall account: seq<byte>, rest: seq<byte> | IsText(account) && account != [] && s == [|account|] + account + rest
      ensures ReadField(s, false) == Ok((account, rest))
    {
      FieldIff(s, false, account, rest);
    }
  }

  lemma NamesFaultIff(c: OtpParams, s: seq<byte>, forceCode: bool)
    ensures NamesFault(c, s, forceCode) <==>
            ReadField(s, true) == Err(Malformed) ||
            (ReadField(s, true).Ok? && AccountFault(c, ReadField(s, true).value.1, forceCode))
  {
    hide ReadField, BadField, IsText, AccountFault;
    FieldMalformedIff(s, true);
    if ReadField(s, true).Ok? {
      var (app, rest) := ReadField(s, true).value;
      FieldIff(s, true, app, rest);
    }
    forall app: seq<byte>, rest: seq<byte> | IsText(app) && s == [|app|] + app + rest
      ensures ReadField(s, true) == Ok((app, rest))
    {
      FieldIff(s, true, app, rest);
    }
  }

  lemma ConfigFaultIff(s: seq<byte>)
    ensures ReadConfig(s) == Err(Malformed) <==>
            (|s| >= 1 && s[0] > 0x01) ||
            (|s| >= 2 && s[0] <= 0x01 && s[1] != 0xC1 && s[1] != 0xC2) ||
            (|s| >= 6 && s[0] <= 0x01 && (s[1] == 0xC1 || s[1] == 0xC2) && s[5] > 0x01)
    ensures ReadConfig(s).Err? ==> ReadConfig(s).error in {Truncated, Malformed}
  {
  }

  /** A record is malformed exactly for one of these faults; every other failure is a truncation. */
  lemma MalformedIff(s: seq<byte>, forceCode: bool)
    ensures ReadEntry(s, forceCode) == Err(Malformed) <==> Fault(s, forceCode)
    ensures ReadEntry(s, forceCode).Err? ==> ReadEntry(s, forceCode).error in {Truncated, Malformed}
  {
    hide ReadConfig, ReadField, EncodeConfig, NamesFault, AccountFault, HasCode;
    ConfigFaultIff(s);
    forall c: OtpParams, rest: seq<byte> | s == EncodeConfig(c) + rest
      ensures ReadConfig(s) == Ok((c, rest))
    {
      ConfigIff(s, c, rest);
    }
    if ReadConfig(s).Ok? {
      var (c, s1) := ReadConfig(s).value;
      ConfigIff(s, c, s1);
      NamesFaultIff(c, s1, forceCode);
      FieldMalformedIff(s1, true);
      if ReadField(s1, true).Ok? {
        var s2 := ReadField(s1, true).value.1;
        AccountFaultIff(c, s2, forceCode);
        FieldMalformedIff(s2, false);
        if ReadField(s2, false).Ok? {
          FieldMalformedIff(ReadField(s2, false).value.1, true);
        }
      }
    }
  }

  lemma {:induction false} ErrorIsAtRecord(es: seq<Entry>, s: seq<byte>, x: ParseError)
    requires AllWellFormed(es) && ReadEntry(s, false) == Err(x) && s != []
    ensures ReadEntries(EncodeEntries(es) + s) == Err(x)
  {
    hide ReadEntry, WellFormed, EncodeEntry;
    if es == [] {
      assert EncodeEntries(es) + s == s;
    } else {
      var rest := EncodeEntries(es[1..]) + s;
      assert EncodeEntries(es) + s == EncodeEntry(es[0], false) + rest;
      EncodingRead(es[0], false, rest);
      ErrorIsAtRecord(es[1..], s, x);
    }
  }

  lemma {:induction false} RecordsBeforeError(s: seq<byte>) returns (es: seq<Entry>, bad: seq<byte>)
    requires ReadEntries(s).Err?
    ensures AllWellFormed(es) && s == EncodeEntries(es) + bad && bad != []
    ensures ReadEntry(bad, false) == Err(ReadEntries(s).error)
    decreases |s|
  {
    hide ReadEntry, WellFormed, EncodeEntry;
    es, bad := [], s;
    if ReadEntry(s, false).Ok? {
      var (e, rest) := ReadEntry(s, false).value;
      NineBytes(s, false);
      ReadIsEncoding(s, false);
      es, bad := RecordsBeforeError(rest);
      assert ([e] + es)[1..] == es;
      es := [e] + es;
    }
  }

  /** A page is refused exactly when it is empty or, after some well-formed records, a record is, and for that reason. */
  lemma PageRefusedIff(data: seq<byte>, x: ParseError)
    ensures ReadPage(data) == Err(x) <==>
            if data == [] then x == Truncated
            else exists es: seq<Entry>, bad: seq<byte> ::
                   AllWellFormed(es) && [data[0] % 0x80] + data[1..] == EncodeEntries(es) + bad && bad != [] &&
                   ReadEntry(bad, false) == Err(x)
  {
    hide ReadEntry, ReadEntries, EncodeEntries, AllWellFormed;
    if data != [] {
      var stream := [data[0] % 0x80] + data[1..];
      if ReadEntries(stream).Err? {
        var es, bad := RecordsBeforeError(stream);
      }
      forall es: seq<Entry>, bad: seq<byte> |
        AllWellFormed(es) && stream == EncodeEntries(es) + bad && bad != [] && ReadEntry(bad, false) == Err(x)
        ensures ReadEntries(stream) == Err(x)
      {
        ErrorIsAtRecord(es, bad, x);
      }
    }
  }

  // --------------------------------------------------------------- truncation

  lemma PrefixOfConcat(a: seq<byte>, b: seq<byte>, n: nat)
    requires n <= |a| + |b|
    ensures (a + b)[..n] == if n < |a| then a[..n] else a + b[..n - |a|]
  {
  }

  lemma FieldCut(f: seq<byte>, allowEmpty: bool, n: nat)
    requires IsText(f) && (allowEmpty || f != []) && n < |EncodeField(f)|
    ensures ReadField(EncodeField(f)[..n], allowEmpty) == Err(Truncated)
  {
  }

  function CodeField(e: Entry): seq<byte>
    requires e.code.Some? ==> |e.code.value| <= 0xFF
  {
    if e.code.Some? then EncodeField(e.code.value) else []
  }

  lemma AccountCut(e: Entry, forceCode: bool, n: nat)
    requires WellFormed(e, forceCode) && n < |EncodeField(e.accountName) + CodeField(e)|
    ensures var r := ReadField((EncodeField(e.accountName) + CodeField(e))[..n], false);
            r == Err(Truncated) ||
            (r.Ok? && r.value.0 == e.accountName && e.code.Some? && ReadField(r.value.1, true) == Err(Truncated))
  {
    hide EncodeField, ReadField, IsAscii;
    var account, code := EncodeField(e.accountName), CodeField(e);
    PrefixOfConcat(account, code, n);
    if n < |account| {
      FieldCut(e.accountName, false, n);
    } else {
      var t := code[..n - |account|];
      FieldIff(account + t, false, e.accountName, t);
      FieldCut(e.code.value, true, n - |account|);
    }
  }

  lemma NamesCut(e: Entry, forceCode: bool, n: nat)
    requires WellFormed(e, forceCode)
    requires n < |EncodeField(e.appName) + (EncodeField(e.accountName) + CodeField(e))|
    ensures e.code.Some? == HasCode(e.config, forceCode)
    ensures var r := ReadField((EncodeField(e.appName) + (EncodeField(e.accountName) + CodeField(e)))[..n], true);
            r == Err(Truncated) ||
            (r.Ok? && r.value.0 == e.appName &&
             var q := ReadField(r.value.1, false);
             q == Err(Truncated) ||
             (q.Ok? && q.value.0 == e.accountName && e.code.Some? && ReadField(q.value.1, true) == Err(Truncated)))
  {
    hide EncodeField, ReadField, IsAscii, CodeField;
    var app, rest := EncodeField(e.appName), EncodeField(e.accountName) + CodeField(e);
    PrefixOfConcat(app, rest, n);
    if n < |app| {
      FieldCut(e.appName, true, n);
    } else {
      FieldIff(app + rest[..n - |app|], true, e.appName, rest[..n - |app|]);
      AccountCut(e, forceCode, n - |app|);
    }
  }

  lemma EntryLayout(e: Entry, forceCode: bool)
    requires WellFormed(e, forceCode)
    ensures EncodeEntry(e, forceCode) ==
            EncodeConfig(e.config) + (EncodeField(e.appName) + (EncodeField(e.accountName) + CodeField(e)))
  {
  }

  /** The first `n` bytes of a record, short of the whole, read as truncated. */
  lemma EntryCut(e: Entry, forceCode: bool, n: nat)
    requires WellFormed(e, forceCode) && n < |EncodeEntry(e, forceCode)|
    ensures ReadEntry(EncodeEntry(e, forceCode)[..n], forceCode) == Err(Truncated)
  {
    EntryLayout(e, forceCode);
    assert |e.appName| <= 0xFF && |e.accountName| <= 0xFF && (e.code.Some? ==> |e.code.value| <= 0xFF);
    hide EncodeEntry, EncodeConfig, EncodeField, ReadField, ReadConfig, IsAscii, CodeField, WellFormed, HasCode, IsText;
    var config := EncodeConfig(e.config);
    var names := EncodeField(e.appName) + (EncodeField(e.accountName) + CodeField(e));
    PrefixOfConcat(config, names, n);
    if n < 6 {
      ConfigCut(e.config, n);
    } else {
      ConfigIff(config + names[..n - 6], e.config, names[..n - 6]);
      NamesCut(e, forceCode, n - 6);
    }
  }

  lemma ConfigCut(c: OtpParams, n: nat)
    requires n < 6
    ensures ReadConfig(EncodeConfig(c)[..n]) == Err(Truncated)
  {
  }

  /** The number of whole records in the first `n` bytes, if these end at a record boundary. */
  ghost function Kept(es: seq<Entry>, n: nat): Option<nat>
    requires AllWellFormed(es)
  {
    if n == 0 then Some(0)
    else if es == [] || n < |EncodeEntry(es[0], false)| then None
    else
      match Kept(es[1..], n - |EncodeEntry(es[0], false)|)
      case None => None
      case Some(k) => Some(k + 1)
  }

  lemma {:induction false} KeptIff(es: seq<Entry>, n: nat, k: nat)
    requires AllWellFormed(es) && k <= |es|
    ensures Kept(es, n) == Some(k) <==> n == |EncodeEntries(es[..k])|
  {
    hide WellFormed, EncodeEntry;
    if k > 0 {
      NineBytesEach(es[0]);
      var m := n - |EncodeEntry(es[0], false)|;
      assert es[..k][0] == es[0] && es[..k][1..] == es[1..][..k - 1];
      if m >= 0 {
        KeptIff(es[1..], m, k - 1);
      }
    } else {
      EmptyEncoding();
    }
  }

  lemma NineBytesEach(e: Entry)
    requires WellFormed(e, false)
    ensures |EncodeEntry(e, false)| >= 9
  {
  }

  lemma {:induction false} EntriesCut(es: seq<Entry>, n: nat)
    requires AllWellFormed(es) && n <= |EncodeEntries(es)|
    ensures ReadEntries(EncodeEntries(es)[..n]) ==
      match Kept(es, n) case None => Err(Truncated) case Some(k) => if k <= |es| then Ok(es[..k]) else Err(Malformed)
    ensures Kept(es, n).Some? ==> Kept(es, n).value <= |es|
  {
    hide ReadEntry, WellFormed, EncodeEntry;
    if n > 0 {
      var first, rest := EncodeEntry(es[0], false), EncodeEntries(es[1..]);
      PrefixOfConcat(first, rest, n);
      if n < |first| {
        EntryCut(es[0], false, n);
      } else {
        var m := n - |first|;
        assert EncodeEntries(es)[..n] == first + rest[..m];
        EncodingRead(es[0], false, rest[..m]);
        EntriesCut(es[1..], m);
        if Kept(es[1..], m).Some? {
          assert [es[0]] + es[1..][..Kept(es[1..], m).value] == es[..Kept(es[1..], m).value + 1];
        }
      }
    }
  }

  /**
   A page cut at a record boundary reads as exactly the records before the cut; cut
   anywhere else it reads as truncated.
   */
  lemma PageCut(page: EnumPage, n: nat)
    requires page.entries != [] && AllWellFormed(page.entries) && n <= |EncodePage(page)|
    ensures forall k :: 1 <= k <= |page.entries| && n == |EncodeEntries(page.entries[..k])| ==>
              ReadPage(EncodePage(page)[..n]) == Ok(EnumPage(page.entries[..k], page.morePages))
    ensures (forall k :: 1 <= k <= |page.entries| ==> n != |EncodeEntries(page.entries[..k])|) ==>
              ReadPage(EncodePage(page)[..n]) == Err(Truncated)
  {
    hide EncodeEntries, ReadEntries, Kept, WellFormed;
    var es := page.entries;
    var s := EncodeEntries(es);
    var cut := EncodePage(page)[..n];
    FirstByte(es);
    EntriesCut(es, n);
    forall k | 0 <= k <= |es|
      ensures Kept(es, n) == Some(k) <==> n == |EncodeEntries(es[..k])|
    {
      KeptIff(es, n, k);
    }
    assert es[..0] == [];
    EmptyEncoding();
    if n > 0 {
      assert cut == [EncodePage(page)[0]] + s[1..n];
      assert [cut[0] % 0x80] + cut[1..] == s[..n];
      forall k | 1 <= k <= |es| && n == |EncodeEntries(es[..k])|
        ensures ReadPage(cut) == Ok(EnumPage(es[..k], page.morePages))
      {
        assert Kept(es, n) == Some(k);
      }
    }
  }

  // -------------------------------------------------------------- clear texts

  predicate ValidNames(appName: seq<byte>, accountName: seq<byte>) {
    IsAscii(appName) && |appName| <= 64 && IsAscii(accountName) && 1 <= |accountName| <= 64
  }

  predicate ValidWrite(w: WriteEntry) {
    && (w.config.otpType.Totp? ==> w.config.timestep != 0)
    && 4 <= w.config.codeLength <= 10
    && ValidNames(w.appName, w.accountName)
    && 1 <= |w.seed| <= 64
  }

  function EncodeNames(appName: seq<byte>, accountName: seq<byte>): seq<byte>
    requires ValidNames(appName, accountName)
  {
    EncodeField(appName) + EncodeField(accountName)
  }

  function WriteClear(w: WriteEntry): seq<byte>
    requires ValidWrite(w)
  {
    EncodeConfig(w.config) + EncodeNames(w.appName, w.accountName) + EncodeField(w.seed)
  }

  function DeleteClear(appName: seq<byte>, accountName: seq<byte>): seq<byte>
    requires ValidNames(appName, accountName)
  {
    [0, 0, 0, 0, 0, 0] + EncodeNames(appName, accountName) + [0x00]
  }

  function ReadBody(timestamp: u64, appName: seq<byte>, accountName: seq<byte>): seq<byte>
    requires ValidNames(appName, accountName)
  {
    [SUB_READ_ONE] + U64Be(timestamp) + EncodeNames(appName, accountName)
  }

  function ValidateCommon(c: OtpParams, appName: seq<byte>, accountName: seq<byte>): Result<(), ParseError> {
    if c.otpType.Totp? && c.timestep == 0 then Err(Invalid)
    else if !(4 <= c.codeLength <= 10) then Err(Invalid)
    else if !IsAscii(appName) || |appName| > 64 then Err(Invalid)
    else if !IsAscii(accountName) || accountName == [] || |accountName| > 64 then Err(Invalid)
    else Ok(())
  }

  /** The two length-prefixed names, appended. */
  method PushNames(buf: seq<byte>, appName: seq<byte>, accountName: seq<byte>) returns (out: seq<byte>)
    requires ValidNames(appName, accountName)
    ensures out == buf + EncodeNames(appName, accountName)
  {
    out := buf + [|appName|];
    out := out + appName;
    out := out + [|accountName|];
    out := out + accountName;
    assert out == buf + EncodeNames(appName, accountName);
  }

  method SerializeWriteEntry(w: WriteEntry) returns (r: Result<seq<byte>, ParseError>)
    ensures r == if ValidWrite(w) then Ok(WriteClear(w)) else Err(Invalid)
  {
    hide IsAscii, EncodeNames;
    var _ :- ValidateCommon(w.config, w.appName, w.accountName);
    if w.seed == [] || |w.seed| > 64 {
      return Err(Invalid);
    }
    var buf: seq<byte> := [];
    buf := buf + [w.config.otpType.ToByte()];
    buf := buf + [w.config.algorithm.ToByte()];
    buf := buf + U16Be(w.config.timestep);
    buf := buf + [w.config.codeLength];
    buf := buf + [if w.config.buttonRequired then 1 else 0];
    assert buf == EncodeConfig(w.config);
    buf := PushNames(buf, w.appName, w.accountName);
    ghost var head := buf;
    buf := buf + [|w.seed|];
    buf := buf + w.seed;
    assert buf == head + EncodeField(w.seed);
    r := Ok(buf);
  }

  method SerializeDeleteEntry(appName: seq<byte>, accountName: seq<byte>) returns (r: Result<seq<byte>, ParseError>)
    ensures r == if ValidNames(appName, accountName) then Ok(DeleteClear(appName, accountName)) else Err(Invalid)
  {
    hide IsAscii, EncodeNames;
    if !IsAscii(appName) || |appName| > 64 {
      return Err(Invalid);
    }
    if !IsAscii(accountName) || accountName == [] || |accountName| > 64 {
      return Err(Invalid);
    }
    var buf := PushNames([0x00, 0x00, 0x00, 0x00, 0x00, 0x00], appName, accountName);
    buf := buf + [0x00];
    r := Ok(buf);
  }

  method SerializeReadEntry(timestamp: u64, appName: seq<byte>, accountName: seq<byte>)
    returns (r: Result<seq<byte>, ParseError>)
    ensures r == if ValidNames(appName, accountName) then Ok(ReadBody(timestamp, appName, accountName)) else Err(Invalid)
  {
    hide IsAscii, EncodeNames, U64Be;
    if !IsAscii(appName) || |appName| > 64 {
      return Err(Invalid);
    }
    if !IsAscii(accountName) || accountName == [] || |accountName| > 64 {
      return Err(Invalid);
    }
    var buf: seq<byte> := [SUB_READ_ONE];
    buf := buf + U64Be(timestamp);
    buf := PushNames(buf, appName, accountName);
    r := Ok(buf);
  }

  // ----------------------------------------------------- the device's reading

  datatype Command =
    | Put(write: WriteEntry)
    | Remove(appName: seq<byte>, accountName: seq<byte>)

  predicate ValidCommand(c: Command) {
    match c
    case Put(w) => ValidWrite(w)
    case Remove(app, account) => ValidNames(app, account)
  }

  function ClearText(c: Command): seq<byte>
    requires ValidCommand(c)
  {
    match c
    case Put(w) => WriteClear(w)
    case Remove(app, account) => DeleteClear(app, account)
  }

  /** The two names at the front of `s`, and what is left. */
  function ReadNames(s: seq<byte>): Option<(seq<byte>, seq<byte>, seq<byte>)> {
    match ReadField(s, true)
    case Err(_) => None
    case Ok((app, s1)) =>
      match ReadField(s1, false)
      case Err(_) => None
      case Ok((account, s2)) => if ValidNames(app, account) then Some((app, account, s2)) else None
  }

  /** A reference device's reading of a clear text: a zero configuration deletes. */
  function DecodeClear(s: seq<byte>): Option<Command> {
    if |s| < 6 then None
    else if s[..6] == [0, 0, 0, 0, 0, 0] then
      match ReadNames(s[6..])
      case None => None
      case Some((app, account, rest)) => if rest == [0x00] then Some(Remove(app, account)) else None
    else
      match ReadConfig(s)
      case Err(_) => None
      case Ok((config, s1)) =>
        match ReadNames(s1)
        case None => None
        case Some((app, account, s2)) =>
          if s2 == [] || s2[0] != |s2| - 1 then None
          else
            var w := WriteEntry(config, app, account, s2[1..]);
            if ValidWrite(w) then Some(Put(w)) else None
  }

  lemma NamesIff(s: seq<byte>, app: seq<byte>, account: seq<byte>, rest: seq<byte>)
    ensures ReadNames(s) == Some((app, account, rest)) <==>
            ValidNames(app, account) && s == EncodeNames(app, account) + rest
  {
    hide ReadField, EncodeField, IsAscii;
    if ReadNames(s) == Some((app, account, rest)) {
      var s1 := ReadField(s, true).value.1;
      FieldIff(s, true, app, s1);
      FieldIff(s1, false, account, rest);
    }
    if ValidNames(app, account) && s == EncodeNames(app, account) + rest {
      var s1 := EncodeField(account) + rest;
      assert s == EncodeField(app) + s1;
      FieldIff(s, true, app, s1);
      FieldIff(s1, false, account, rest);
    }
  }

  lemma DecodeWrite(w: WriteEntry)
    requires ValidWrite(w)
    ensures DecodeClear(WriteClear(w)) == Some(Put(w))
  {
    hide ReadNames, EncodeNames, ValidNames, ReadConfig;
    var s := WriteClear(w);
    var s2 := EncodeField(w.seed);
    var s1 := EncodeNames(w.appName, w.accountName) + s2;
    assert s == EncodeConfig(w.config) + s1;
    assert s[1] == w.config.algorithm.ToByte() && s[..6][1] != 0;
    ConfigIff(s, w.config, s1);
    NamesIff(s1, w.appName, w.accountName, s2);
    assert s2[1..] == w.seed;
  }

  lemma DecodeDelete(app: seq<byte>, account: seq<byte>)
    requires ValidNames(app, account)
    ensures DecodeClear(DeleteClear(app, account)) == Some(Remove(app, account))
  {
    hide ReadNames, EncodeNames, ValidNames, ReadConfig;
    var s := DeleteClear(app, account);
    var s1 := EncodeNames(app, account) + [0x00];
    assert s[..6] == [0, 0, 0, 0, 0, 0] && s[6..] == s1;
    NamesIff(s1, app, account, [0x00]);
  }

  lemma DecodedIsClear(s: seq<byte>)
    requires DecodeClear(s).Some?
    ensures ValidCommand(DecodeClear(s).value) && s == ClearText(DecodeClear(s).value)
  {
    hide ReadNames, EncodeNames, ValidNames, ReadConfig, EncodeConfig;
    match DecodeClear(s).value {
      case Remove(app, account) =>
        NamesIff(s[6..], app, account, [0x00]);
        assert s == s[..6] + s[6..];
      case Put(w) =>
        var s1 := ReadConfig(s).value.1;
        var s2 := ReadNames(s1).value.2;
        ConfigIff(s, w.config, s1);
        NamesIff(s1, w.appName, w.accountName, s2);
        assert s2 == EncodeField(w.seed);
    }
  }

  /**
   Clear texts and valid commands are in bijection, so writes and deletes are never
   confused and each determines its record or its (app, account) pair.
   */
  lemma ClearTextIff(s: seq<byte>, c: Command)
    ensures DecodeClear(s) == Some(c) <==> ValidCommand(c) && s == ClearText(c)
  {
    hide DecodeClear, WriteClear, DeleteClear, ValidWrite, ValidNames;
    if DecodeClear(s) == Some(c) {
      DecodedIsClear(s);
    }
    if ValidCommand(c) && s == ClearText(c) {
      match c {
        case Put(w) => DecodeWrite(w);
        case Remove(app, account) => DecodeDelete(app, account);
      }
    }
  }

  /** What is valid: 4 to 10 digits, ASCII names up to 64 bytes with an account, a time step for TOTP. */
  lemma ValidExactly(w: WriteEntry)
    ensures ValidWrite(w) <==>
            (w.config.otpType.Hotp? || w.config.timestep > 0) && w.config.codeLength in {4, 5, 6, 7, 8, 9, 10} &&
            ValidNames(w.appName, w.accountName) && |w.seed| > 0 && |w.seed| < 65
    ensures ValidNames(w.appName, w.accountName) <==>
            |w.appName| < 65 && 0 < |w.accountName| < 65 &&
            (forall i :: 0 <= i < |w.appName| ==> w.appName[i] < 128) &&
            (forall i :: 0 <= i < |w.accountName| ==> w.accountName[i] < 128)
  {
  }

  /** Every byte of a write's clear text. */
  lemma WriteBytes(w: WriteEntry)
    requires ValidWrite(w)
    ensures var (s, a, b) := (WriteClear(w), |w.appName|, |w.accountName|);
            && s[0] == (if w.config.otpType.Totp? then 0x01 else 0x00)
            && s[1] == (if w.config.algorithm.Sha1? then 0xC1 else 0xC2)
            && s[2] as int * 0x100 + s[3] as int == w.config.timestep
            && s[4] == w.config.codeLength && s[5] == (if w.config.buttonRequired then 0x01 else 0x00)
            && s[6] == a && s[7..7 + a] == w.appName && s[7 + a] == b && s[8 + a..8 + a + b] == w.accountName
            && s[8 + a + b] == |w.seed| && s[9 + a + b..] == w.seed
  {
    var (s, a, b) := (WriteClear(w), |w.appName|, |w.accountName|);
    assert s[7..7 + a] == w.appName;
    assert s[8 + a..8 + a + b] == w.accountName;
    assert s[9 + a + b..] == w.seed;
  }

  /** Every byte of a delete's clear text, and of the request for one record. */
  lemma NameBytes(timestamp: u64, app: seq<byte>, account: seq<byte>)
    requires ValidNames(app, account)
    ensures DeleteClear(app, account) == [0, 0, 0, 0, 0, 0] + [|app|] + app + [|account|] + account + [0]
    ensures ReadBody(timestamp, app, account) == [0x01] + U64Be(timestamp) + [|app|] + app + [|account|] + account
    ensures EnumAllBody(timestamp) == [0x03] + U64Be(timestamp)
  {
    hide U64Be;
  }

  lemma ClearTextSize(c: Command)
    requires ValidCommand(c)
    ensures 10 <= |ClearText(c)| <= 201
  {
  }

  /** What a device reads in an ENUM_CODES body. */
  datatype Query = All(timestamp: u64) | One(timestamp: u64, appName: seq<byte>, accountName: seq<byte>)

  function DecodeQuery(body: seq<byte>): Option<Query> {
    if |body| < 9 then None
    else
      var ts := U64OfBe(body[1..9]);
      if body[0] == SUB_READ_ALL && |body| == 9 then Some(All(ts))
      else if body[0] == SUB_READ_ONE then
        match ReadNames(body[9..])
        case Some((app, account, rest)) => if rest == [] then Some(One(ts, app, account)) else None
        case None => None
      else None
  }

  /** The device reads back the time and the names of every request the host can form. */
  lemma QueryRoundTrip(timestamp: u64, app: seq<byte>, account: seq<byte>)
    ensures DecodeQuery(EnumAllBody(timestamp)) == Some(All(timestamp))
    ensures ValidNames(app, account) ==> DecodeQuery(ReadBody(timestamp, app, account)) == Some(One(timestamp, app, account))
  {
    hide ReadNames, EncodeNames, U64Be, U64OfBe, ValidNames;
    U64RoundTrip(timestamp);
    assert EnumAllBody(timestamp)[1..9] == U64Be(timestamp);
    if ValidNames(app, account) {
      var body := ReadBody(timestamp, app, account);
      assert body[1..9] == U64Be(timestamp) && body[9..] == EncodeNames(app, account);
      NamesIff(body[9..], app, account, []);
      assert EncodeNames(app, account) + [] == EncodeNames(app, account);
    }
  }
}
