/** `otpauth://totp` URIs as scanned from a QR code. */
module Otpauth {
  import opened Bytes
  import opened Text
  import opened Utf8

  datatype Algo = Sha1 | Sha256 | Sha512

  datatype Scanned = Scanned(
    issuer: Option<string>,
    account: Option<string>,
    secret: string,
    algorithm: Option<Algo>,
    digits: Option<byte>,
    period: Option<u16>)

  datatype ScanError = NotTotp | HotpCode | NoSecret

  // -------------------------------------------------------- percent encoding

  const PERCENT: byte := 0x25
  const PLUS: byte := 0x2B
  const SPACE: byte := 0x20

  function HexVal(b: byte): (r: Option<byte>)
    ensures r.Some? ==> r.value < 16
  {
    if 0x30 <= b < 0x3A then Some(b - 0x30)
    else if 0x61 <= b < 0x67 then Some(b - 0x57)
    else if 0x41 <= b < 0x47 then Some(b - 0x37)
    else None
  }

  /** A percent sign followed by two hexadecimal digits. */
  predicate IsEscape(b: seq<byte>) {
    |b| > 2 && b[0] == PERCENT && HexVal(b[1]).Some? && HexVal(b[2]).Some?
  }

  /** The byte that an escape stands for. */
  function EscapedByte(b: seq<byte>): byte
    requires IsEscape(b)
  {
    HexVal(b[1]).value * 16 + HexVal(b[2]).value
  }

  function Unescaped(b: seq<byte>): seq<byte> {
    if b == [] then []
    else if IsEscape(b) then [EscapedByte(b)] + Unescaped(b[3..])
    else [if b[0] == PLUS then SPACE else b[0]] + Unescaped(b[1..])
  }

  function PercentDecoded(s: string): string {
    Lossy(Unescaped(Encode(s)))
  }

  lemma UnescapeAt(b: seq<byte>, i: nat, out: seq<byte>)
    requires i < |b|
    ensures IsEscape(b[i..]) <==> i + 2 < |b| && b[i] == PERCENT && HexVal(b[i + 1]).Some? && HexVal(b[i + 2]).Some?
    ensures out + Unescaped(b[i..]) ==
      if IsEscape(b[i..]) then out + [HexVal(b[i + 1]).value * 16 + HexVal(b[i + 2]).value] + Unescaped(b[i + 3..])
      else out + [if b[i] == PLUS then SPACE else b[i]] + Unescaped(b[i + 1..])
  {
    hide HexVal;
    assert b[i..][1..] == b[i + 1..];
    assert |b[i..]| > 2 ==> b[i..][3..] == b[i + 3..];
  }

  method PercentDecode(s: string) returns (r: string)
    ensures r == PercentDecoded(s)
  {
    hide HexVal, Unescaped, IsEscape;
    var bytes := Encode(s);
    var out: seq<byte> := [];
    var i := 0;
    assert bytes[0..] == bytes && out + Unescaped(bytes) == Unescaped(bytes);
    while i < |bytes|
      invariant i <= |bytes|
      invariant out + Unescaped(bytes[i..]) == Unescaped(bytes)
    {
      UnescapeAt(bytes, i, out);
      if bytes[i] == PERCENT && i + 2 < |bytes| {
        var hi, lo := HexVal(bytes[i + 1]), HexVal(bytes[i + 2]);
        if hi.Some? && lo.Some? {
          out := out + [hi.value * 16 + lo.value];
          i := i + 3;
        } else {
          out := out + [bytes[i]];
          i := i + 1;
        }
      } else if bytes[i] == PLUS {
        out := out + [SPACE];
        i := i + 1;
      } else {
        out := out + [bytes[i]];
        i := i + 1;
      }
    }
    NothingToDecode();
    assert bytes[i..] == [] && out + [] == out;
    r := Lossy(out);
  }

  lemma NothingToDecode()
    ensures Unescaped([]) == [] && PercentDecoded([]) == []
  {
  }

  /** Section 2.3 of RFC 3986. */
  predicate IsUnreserved(c: char) {
    'a' <= c <= 'z' || 'A' <= c <= 'Z' || '0' <= c <= '9' || c == '-' || c == '.' || c == '_' || c == '~'
  }

  function HexDigit(v: byte): byte
    requires v < 16
  {
    if v < 10 then 0x30 + v else 0x37 + v
  }

  function EscapeByte(b: byte): (e: seq<byte>)
    ensures IsAscii(e)
  {
    if IsUnreserved(b as char) then [b] else [PERCENT, HexDigit(b / 16), HexDigit(b % 16)]
  }

  function Escaped(b: seq<byte>): (e: seq<byte>)
    ensures IsAscii(e)
  {
    if b == [] then [] else EscapeByte(b[0]) + Escaped(b[1..])
  }

  /** Section 2.1 of RFC 3986, over the UTF-8 encoding of the text. */
  function PercentEncoded(s: string): string {
    AsText(Escaped(Encode(s)))
  }

  lemma HexRoundTrip(v: byte)
    requires v < 16
    ensures HexVal(HexDigit(v)) == Some(v)
  {
  }

  lemma UnescapeOne(b: byte, rest: seq<byte>)
    ensures Unescaped(EscapeByte(b) + rest) == [b] + Unescaped(rest)
  {
    hide HexDigit, HexVal;
    HexRoundTrip(b / 16);
    HexRoundTrip(b % 16);
    var t := EscapeByte(b) + rest;
    if IsUnreserved(b as char) {
      assert t[0] == b && t[1..] == rest;
    } else {
      assert t[0] == PERCENT && t[1] == HexDigit(b / 16) && t[2] == HexDigit(b % 16) && t[3..] == rest;
    }
  }

  lemma {:induction false} UnescapeEscaped(b: seq<byte>, rest: seq<byte>)
    ensures Unescaped(Escaped(b) + rest) == b + Unescaped(rest)
  {
    hide EscapeByte, Unescaped;
    if b == [] {
      assert Escaped(b) + rest == rest;
    } else {
      var more := Escaped(b[1..]) + rest;
      UnescapeEscaped(b[1..], rest);
      UnescapeOne(b[0], more);
      assert Escaped(b) + rest == EscapeByte(b[0]) + more;
      assert [b[0]] + (b[1..] + Unescaped(rest)) == b + Unescaped(rest);
    }
  }

  lemma DecodeEncoded(s: string, rest: string)
    ensures PercentDecoded(PercentEncoded(s) + rest) == s + PercentDecoded(rest)
  {
    hide Encode, Lossy, Unescaped, Escaped, AsText;
    var e := Escaped(Encode(s));
    EncodeConcat(AsText(e), rest);
    EncodeAscii(e);
    UnescapeEscaped(Encode(s), Encode(rest));
    LossyEncoded(s, Unescaped(Encode(rest)));
  }

  /** Decoding inverts encoding on every text. */
  lemma PercentRoundTrip(s: string)
    ensures PercentDecoded(PercentEncoded(s)) == s
  {
    hide PercentEncoded, PercentDecoded;
    DecodeEncoded(s, []);
    NothingToDecode();
    assert PercentEncoded(s) + [] == PercentEncoded(s) && s + [] == s;
  }

  /** Neither a delimiter nor white space. */
  predicate IsPlain(c: char) {
    IsUnreserved(c) || c == '%'
  }

  predicate AllPlain(s: string) {
    forall i :: 0 <= i < |s| ==> IsPlain(s[i])
  }

  lemma {:induction false} EscapedIsPlain(b: seq<byte>)
    ensures AllPlain(AsText(Escaped(b)))
  {
    hide EscapeByte, IsPlain;
    if b != [] {
      EscapedIsPlain(b[1..]);
      var e, rest := EscapeByte(b[0]), Escaped(b[1..]);
      EscapeByteIsPlain(b[0]);
      assert AsText(e + rest) == AsText(e) + AsText(rest);
    }
  }

  lemma EscapeByteIsPlain(b: byte)
    ensures AllPlain(AsText(EscapeByte(b)))
  {
  }

  lemma EncodedIsPlain(s: string)
    ensures AllPlain(PercentEncoded(s))
  {
    EscapedIsPlain(Encode(s));
  }

  // ----------------------------------------------------------------- numbers

  predicate IsDigit(c: char) {
    '0' <= c <= '9'
  }

  predicate AllDigits(s: string) {
    forall i :: 0 <= i < |s| ==> IsDigit(s[i])
  }

  function DigitsValue(s: string): nat
    requires AllDigits(s)
  {
    if s == [] then 0
    else
      assert IsDigit(s[|s| - 1]);
      DigitsValue(s[..|s| - 1]) * 10 + (s[|s| - 1] as int - 48)
  }

  /** `str::parse` of an unsigned integer of at most `max`. */
  function ParseUnsigned(s: string, max: nat): (r: Option<nat>)
    ensures r.Some? ==> r.value <= max
  {
    var t := if |s| > 1 && s[0] == '+' then s[1..] else s;
    if t == [] || !AllDigits(t) then None
    else if DigitsValue(t) > max then None
    else Some(DigitsValue(t))
  }

  function Decimal(n: nat): (s: string)
    ensures s != [] && forall i :: 0 <= i < |s| ==> IsDigit(s[i])
  {
    if n < 10 then [(48 + n) as char] else Decimal(n / 10) + [(48 + n % 10) as char]
  }

  lemma {:induction false} DecimalValue(n: nat)
    ensures DigitsValue(Decimal(n)) == n
  {
    if n >= 10 {
      DecimalValue(n / 10);
      assert Decimal(n)[..|Decimal(n)| - 1] == Decimal(n / 10);
    } else {
      assert Decimal(n)[..0] == [];
    }
  }

  /** Every number in range is parsed back from its decimal form. */
  lemma DecimalRoundTrip(n: nat, max: nat)
    requires n <= max
    ensures ParseUnsigned(Decimal(n), max) == Some(n)
  {
    DecimalValue(n);
    assert IsDigit(Decimal(n)[0]);
  }

  lemma {:induction false} UnescapePlain(b: seq<byte>)
    requires PERCENT !in b && PLUS !in b
    ensures Unescaped(b) == b
  {
    if b != [] {
      UnescapePlain(b[1..]);
    }
  }

  lemma DecodePlainText(s: string)
    requires '%' !in s && '+' !in s
    ensures PercentDecoded(s) == s
  {
    hide Encode, Lossy, Unescaped;
    AsciiInEncoded(s, PERCENT);
    AsciiInEncoded(s, PLUS);
    UnescapePlain(Encode(s));
    LossyEncoded(s, []);
    assert Encode(s) + [] == Encode(s) && s + Lossy([]) == s by { NothingToDecode(); LossyNothing(); }
  }

  lemma LossyNothing()
    ensures Lossy([]) == []
  {
  }

  // ------------------------------------------------------------------ parsing

  const TOTP := "otpauth://totp/"
  const TOTP_UPPER := "otpauth://TOTP/"
  const HOTP := "otpauth://hotp/"

  const EMPTY: Scanned := Scanned(None, None, "", None, None, None)

  function NonEmpty(s: string): Option<string> {
    if s == [] then None else Some(s)
  }

  /** The label, once decoded, is `Issuer:Account` or just `Account`. */
  function FromLabel(text: string): Scanned {
    match SplitOnce(text, ':')
    case Some((issuer, account)) => EMPTY.(issuer := NonEmpty(Trim(issuer)), account := NonEmpty(Trim(account)))
    case None => EMPTY.(account := NonEmpty(Trim(text)))
  }

  function AlgoFrom(name: string): Option<Algo> {
    if name == "SHA1" then Some(Sha1)
    else if name == "SHA256" then Some(Sha256)
    else if name == "SHA512" then Some(Sha512)
    else None
  }

  /** The parameters the parser knows. */
  datatype Field = Secret | Issuer | Algorithm | Digits | Period

  function Name(f: Field): string {
    match f
    case Secret => "secret"
    case Issuer => "issuer"
    case Algorithm => "algorithm"
    case Digits => "digits"
    case Period => "period"
  }

  function FieldOf(key: string): (r: Option<Field>)
    ensures forall f: Field :: r == Some(f) <==> key == Name(f)
  {
    if key == "secret" then Some(Secret)
    else if key == "issuer" then Some(Issuer)
    else if key == "algorithm" then Some(Algorithm)
    else if key == "digits" then Some(Digits)
    else if key == "period" then Some(Period)
    else None
  }

  function WithValue(out: Scanned, f: Field, val: string): Scanned {
    match f
    case Secret => out.(secret := Trim(val))
    case Issuer => if Trim(val) == [] then out else out.(issuer := Some(Trim(val)))
    case Algorithm => out.(algorithm := AlgoFrom(Uppercase(val)))
    case Digits => out.(digits := ParseUnsigned(Trim(val), 0xFF))
    case Period => out.(period := ParseUnsigned(Trim(val), 0xFFFF))
  }

  function WithPair(out: Scanned, pair: string): Scanned {
    match SplitOnce(pair, '=')
    case None => out
    case Some((k, v)) =>
      match FieldOf(Lowercase(k))
      case None => out
      case Some(f) => WithValue(out, f, PercentDecoded(v))
  }

  function WithPairs(out: Scanned, pairs: seq<string>): Scanned {
    if pairs == [] then out else WithPair(WithPairs(out, pairs[..|pairs| - 1]), pairs[|pairs| - 1])
  }

  function AfterScheme(uri: string): Result<string, ScanError> {
    if TOTP <= uri then Ok(uri[|TOTP|..])
    else if TOTP_UPPER <= uri then Ok(uri[|TOTP_UPPER|..])
    else if HOTP <= uri then Err(HotpCode)
    else Err(NotTotp)
  }

  function LabelAndQuery(rest: string): (string, string) {
    match SplitOnce(rest, '?')
    case Some((l, q)) => (l, q)
    case None => (rest, "")
  }

  function Parsed(uri: string): Result<Scanned, ScanError> {
    match AfterScheme(Trim(uri))
    case Err(e) => Err(e)
    case Ok(rest) =>
      var (name, query) := LabelAndQuery(rest);
      var out := WithPairs(FromLabel(PercentDecoded(name)), Split(query, '&'));
      if out.secret == [] then Err(NoSecret) else Ok(out)
  }

  method ParseOtpauth(uri: string) returns (r: Result<Scanned, ScanError>)
    ensures r == Parsed(uri)
  {
    hide Trim, FieldOf, AlgoFrom, Uppercase, ParseUnsigned, SplitOnce, PercentDecoded, Lowercase, Split;
    var rest :- AfterScheme(Trim(uri));
    var (labelText, query) := LabelAndQuery(rest);
    var out := EMPTY;
    var name := PercentDecode(labelText);
    var split := SplitOnce(name, ':');
    if split.Some? {
      var issuer := Trim(split.value.0);
      if issuer != [] {
        out := out.(issuer := Some(issuer));
      }
      var account := Trim(split.value.1);
      if account != [] {
        out := out.(account := Some(account));
      }
    } else {
      var account := Trim(name);
      if account != [] {
        out := out.(account := Some(account));
      }
    }
    var pairs := Split(query, '&');
    ghost var start := out;
    for i := 0 to |pairs|
      invariant out == WithPairs(start, pairs[..i])
    {
      assert pairs[..i + 1][..i] == pairs[..i];
      var kv := SplitOnce(pairs[i], '=');
      if kv.None? {
        continue;
      }
      var key := FieldOf(Lowercase(kv.value.0));
      var val := PercentDecode(kv.value.1);
      match key {
        case Some(Secret) =>
          out := out.(secret := Trim(val));
        case Some(Issuer) =>
          var v := Trim(val);
          if v != [] {
            out := out.(issuer := Some(v));
          }
        case Some(Algorithm) =>
          out := out.(algorithm := AlgoFrom(Uppercase(val)));
        case Some(Digits) =>
          out := out.(digits := ParseUnsigned(Trim(val), 0xFF));
        case Some(Period) =>
          out := out.(period := ParseUnsigned(Trim(val), 0xFFFF));
        case None =>
      }
    }
    assert pairs[..|pairs|] == pairs;
    if out.secret == [] {
      return Err(NoSecret);
    }
    r := Ok(out);
  }

  // --------------------------------------------------------------- rendering

  /** A query parameter: a field under any spelling of its name, or something unknown. */
  datatype Param = Known(field: Field, key: string) | Extra(text: string)

  predicate IsPresent(s: string) {
    IsTrimmed(s) && s != []
  }

  /** No text has outer white space, and no name is empty. */
  predicate Tidy(r: Scanned) {
    && (r.account.Some? ==> IsPresent(r.account.value))
    && (r.issuer.Some? ==> IsPresent(r.issuer.value))
    && IsTrimmed(r.secret)
  }

  /** A record a QR code can give. */
  predicate Complete(r: Scanned) {
    Tidy(r) && r.secret != []
  }

  predicate Has(r: Scanned, f: Field) {
    match f
    case Secret => true
    case Issuer => r.issuer.Some?
    case Algorithm => r.algorithm.Some?
    case Digits => r.digits.Some?
    case Period => r.period.Some?
  }

  function AlgoName(a: Algo): string {
    match a
    case Sha1 => "SHA1"
    case Sha256 => "SHA256"
    case Sha512 => "SHA512"
  }

  function ValueText(r: Scanned, f: Field): string
    requires Complete(r) && Has(r, f)
  {
    match f
    case Secret => PercentEncoded(r.secret)
    case Issuer => PercentEncoded(r.issuer.value)
    case Algorithm => AlgoName(r.algorithm.value)
    case Digits => Decimal(r.digits.value)
    case Period => Decimal(r.period.value)
  }

  /** A parameter the record can be rendered with. */
  predicate Usable(r: Scanned, p: Param) {
    match p
    case Known(f, key) => Has(r, f) && Lowercase(key) == Name(f)
    case Extra(text) =>
      && (forall i :: 0 <= i < |text| ==> text[i] != '&' && !IsWhitespace(text[i]))
      && (SplitOnce(text, '=').Some? ==> FieldOf(Lowercase(SplitOnce(text, '=').value.0)) == None)
  }

  function ParamText(r: Scanned, p: Param): string
    requires Complete(r) && Usable(r, p)
  {
    match p
    case Known(f, key) => key + ['='] + ValueText(r, f)
    case Extra(text) => text
  }

  /** The parameters, in any order and with unknown ones mixed in, name every field but the issuer. */
  ghost predicate Covers(r: Scanned, params: seq<Param>) {
    && (forall i :: 0 <= i < |params| ==> Usable(r, params[i]))
    && (forall f: Field :: Has(r, f) && f != Issuer ==> exists i :: 0 <= i < |params| && params[i].Known? && params[i].field == f)
  }

  function AccountText(r: Scanned): string {
    match r.account case None => [] case Some(a) => a
  }

  function LabelText(r: Scanned): string {
    (if r.issuer.Some? then PercentEncoded(r.issuer.value) + [':'] else []) + PercentEncoded(AccountText(r))
  }

  function ParamTexts(r: Scanned, params: seq<Param>): (texts: seq<string>)
    requires Complete(r) && forall i :: 0 <= i < |params| ==> Usable(r, params[i])
    ensures |texts| == |params|
  {
    seq(|params|, i requires 0 <= i < |params| => ParamText(r, params[i]))
  }

  function Render(r: Scanned, params: seq<Param>): string
    requires Complete(r) && params != [] && forall i :: 0 <= i < |params| ==> Usable(r, params[i])
  {
    TOTP + LabelText(r) + ['?'] + Join(ParamTexts(r, params), '&')
  }

  // -------------------------------------------------------------- round trip

  lemma LowercaseOfKey(key: string, f: Field)
    requires Lowercase(key) == Name(f)
    ensures forall i :: 0 <= i < |key| ==> key[i] != '=' && key[i] != '&' && !IsWhitespace(key[i])
  {
    forall i | 0 <= i < |key|
      ensures key[i] != '=' && key[i] != '&' && !IsWhitespace(key[i])
    {
      assert LowerChar(key[i]) == Name(f)[i];
      assert 'a' <= Name(f)[i] <= 'z';
    }
  }

  lemma ValueIsPlain(r: Scanned, f: Field)
    requires Complete(r) && Has(r, f)
    ensures AllPlain(ValueText(r, f))
  {
    match f {
      case Secret => EncodedIsPlain(r.secret);
      case Issuer => EncodedIsPlain(r.issuer.value);
      case Algorithm =>
      case Digits => assert forall c :: IsDigit(c) ==> IsPlain(c);
      case Period => assert forall c :: IsDigit(c) ==> IsPlain(c);
    }
  }

  lemma KnownPairSplits(r: Scanned, p: Param, out: Scanned)
    requires Complete(r) && Usable(r, p) && p.Known?
    ensures WithPair(out, ParamText(r, p)) == WithValue(out, p.field, PercentDecoded(ValueText(r, p.field)))
  {
    hide PercentDecoded, ValueText, SplitOnce, WithValue, IsWhitespace, FieldOf;
    LowercaseOfKey(p.key, p.field);
    SplitOnceAt(p.key, '=', ValueText(r, p.field));
  }

  /** What a rendered parameter does to a record being parsed. */
  lemma KnownPair(r: Scanned, p: Param, out: Scanned)
    requires Complete(r) && Usable(r, p) && p.Known?
    ensures WithPair(out, ParamText(r, p)) ==
      match p.field
      case Secret => out.(secret := r.secret)
      case Issuer => out.(issuer := r.issuer)
      case Algorithm => out.(algorithm := r.algorithm)
      case Digits => out.(digits := r.digits)
      case Period => out.(period := r.period)
  {
    KnownPairSplits(r, p, out);
    hide PercentEncoded, PercentDecoded, Decimal, ParseUnsigned, IsWhitespace, Trim, WithPair, ParamText, Uppercase, AlgoFrom;
    match p.field {
      case Secret =>
        PercentRoundTrip(r.secret);
        TrimIsTrimmed(r.secret);
      case Issuer =>
        PercentRoundTrip(r.issuer.value);
        TrimIsTrimmed(r.issuer.value);
      case Algorithm =>
        AlgoNameRead(r.algorithm.value);
      case Digits =>
        NumberRead(r.digits.value, 0xFF);
      case Period =>
        NumberRead(r.period.value, 0xFFFF);
    }
  }

  lemma AlgoNameRead(a: Algo)
    ensures AlgoFrom(Uppercase(PercentDecoded(AlgoName(a)))) == Some(a)
  {
    DecodePlainText(AlgoName(a));
    assert Uppercase(AlgoName(a)) == AlgoName(a);
  }

  lemma DigitsAreText(s: string)
    requires s != [] && forall i :: 0 <= i < |s| ==> IsDigit(s[i])
    ensures PercentDecoded(s) == s && IsTrimmed(s)
  {
    hide PercentDecoded, IsWhitespace;
    DecodePlainText(s);
    DigitIsText(s[0]);
    DigitIsText(s[|s| - 1]);
  }

  lemma DigitIsText(c: char)
    requires IsDigit(c)
    ensures !IsWhitespace(c)
  {
  }

  lemma NumberRead(n: nat, max: nat)
    requires n <= max
    ensures ParseUnsigned(Trim(PercentDecoded(Decimal(n))), max) == Some(n)
  {
    hide Decimal, ParseUnsigned, PercentDecoded, IsTrimmed, Trim;
    DigitsAreText(Decimal(n));
    TrimIsTrimmed(Decimal(n));
    DecimalRoundTrip(n, max);
  }

  lemma ExtraPair(r: Scanned, p: Param, out: Scanned)
    requires Complete(r) && Usable(r, p) && p.Extra?
    ensures WithPair(out, ParamText(r, p)) == out
  {
    hide FieldOf, WithValue;
  }

  /** The fields named by the parameters. */
  function Fields(params: seq<Param>): set<Field> {
    set i | 0 <= i < |params| && params[i].Known? :: params[i].field
  }

  /** `start` with those fields of `r` that are in `fs`. */
  function Merge(start: Scanned, r: Scanned, fs: set<Field>): Scanned {
    Scanned(if Issuer in fs then r.issuer else start.issuer,
            start.account,
            if Secret in fs then r.secret else start.secret,
            if Algorithm in fs then r.algorithm else start.algorithm,
            if Digits in fs then r.digits else start.digits,
            if Period in fs then r.period else start.period)
  }

  /** Parsing rendered parameters sets exactly the fields they name, whatever their order. */
  lemma {:induction false} ParamsMerge(start: Scanned, r: Scanned, params: seq<Param>)
    requires Complete(r) && forall i :: 0 <= i < |params| ==> Usable(r, params[i])
    ensures WithPairs(start, ParamTexts(r, params)) == Merge(start, r, Fields(params))
  {
    hide WithPair, ParamText, Usable, Complete;
    var texts := ParamTexts(r, params);
    if params == [] {
      assert texts == [];
    } else {
      var n := |params| - 1;
      var last := params[n];
      ParamsMerge(start, r, params[..n]);
      assert texts[..n] == ParamTexts(r, params[..n]);
      var before := Merge(start, r, Fields(params[..n]));
      assert WithPairs(start, texts) == WithPair(before, ParamText(r, last));
      assert params == params[..n] + [last];
      if last.Known? {
        KnownPair(r, last, before);
        FieldsExtend(params[..n], last);
      } else {
        ExtraPair(r, last, before);
        FieldsExtend(params[..n], last);
      }
    }
  }

  lemma FieldsExtend(params: seq<Param>, p: Param)
    ensures Fields(params + [p]) == Fields(params) + if p.Known? then {p.field} else {}
  {
    var all := params + [p];
    assert forall i :: 0 <= i < |params| ==> all[i] == params[i];
    assert all[|params|] == p;
    forall f
      ensures f in Fields(all) <==> f in Fields(params) || (p.Known? && f == p.field)
    {
      if f in Fields(params) {
        var i :| 0 <= i < |params| && params[i].Known? && params[i].field == f;
        assert all[i].field == f;
      }
    }
  }

  lemma CoversAll(r: Scanned, params: seq<Param>)
    requires Covers(r, params)
    ensures forall f: Field :: Has(r, f) && f != Issuer ==> f in Fields(params)
    ensures forall f: Field :: f in Fields(params) ==> Has(r, f)
  {
  }

  // -- the label

  lemma DecodeColon(rest: string)
    ensures PercentDecoded([':'] + rest) == [':'] + PercentDecoded(rest)
  {
    hide Lossy;
    var x := Encode(rest);
    assert ([':'] + rest)[1..] == rest;
    assert Encode([':'] + rest) == [0x3A] + x;
    assert ([0x3A] + x)[1..] == x;
    assert Unescaped([0x3A] + x) == [0x3A] + Unescaped(x);
    LossyOne(':', Unescaped(x));
  }

  lemma LabelDecodes(r: Scanned)
    ensures PercentDecoded(LabelText(r)) == (if r.issuer.Some? then r.issuer.value + [':'] else []) + AccountText(r)
  {
    hide PercentEncoded, PercentDecoded, AccountText;
    var account := PercentEncoded(AccountText(r));
    PercentRoundTrip(AccountText(r));
    if r.issuer.Some? {
      DecodeColon(account);
      DecodeEncoded(r.issuer.value, [':'] + account);
      assert LabelText(r) == PercentEncoded(r.issuer.value) + ([':'] + account);
      assert r.issuer.value + ([':'] + AccountText(r)) == r.issuer.value + [':'] + AccountText(r);
    } else {
      assert LabelText(r) == account && [] + AccountText(r) == AccountText(r);
    }
  }

  /** The label can be taken apart again: its first colon is the separator. */
  predicate LabelSafe(r: Scanned) {
    if r.issuer.Some? then ':' !in r.issuer.value else ':' !in AccountText(r)
  }

  lemma AccountRead(r: Scanned)
    requires Complete(r)
    ensures IsTrimmed(AccountText(r)) && NonEmpty(Trim(AccountText(r))) == r.account
  {
    hide Trim, IsWhitespace;
    TrimIsTrimmed(AccountText(r));
  }

  lemma SafeLabelRead(r: Scanned)
    requires Complete(r) && LabelSafe(r)
    ensures FromLabel(PercentDecoded(LabelText(r))) == EMPTY.(issuer := r.issuer, account := r.account)
  {
    hide PercentEncoded, PercentDecoded, IsWhitespace, Trim, AccountText, LabelText;
    LabelDecodes(r);
    AccountRead(r);
    if r.issuer.Some? {
      TrimIsTrimmed(r.issuer.value);
      SplitOnceAt(r.issuer.value, ':', AccountText(r));
    } else {
      assert [] + AccountText(r) == AccountText(r);
    }
  }

  lemma Regroup(a: string, b: string, c: string)
    ensures a + [':'] + b + [':'] + c == a + [':'] + (b + [':'] + c)
  {
  }

  lemma IssuerColonRead(issuer: string, account: string)
    requires ':' in issuer && IsTrimmed(account)
    ensures FromLabel(issuer + [':'] + account).account != NonEmpty(account)
  {
    hide IsWhitespace, Trim;
    var i := IndexOf(issuer, ':');
    var tail := issuer[i + 1..] + [':'] + account;
    assert issuer == issuer[..i] + [':'] + issuer[i + 1..];
    Regroup(issuer[..i], issuer[i + 1..], account);
    SplitOnceAt(issuer[..i], ':', tail);
    LongerThanAccount(issuer[i + 1..], account);
  }

  lemma AccountColonRead(account: string)
    requires ':' in account
    ensures FromLabel(account).account != Some(account)
  {
    hide IsWhitespace, Trim;
    var i := IndexOf(account, ':');
    assert account == account[..i] + [':'] + account[i + 1..];
    SplitOnceAt(account[..i], ':', account[i + 1..]);
    TrimIsTrimmed(account[i + 1..]);
  }

  /** Otherwise the account comes out different. */
  lemma UnsafeLabelRead(r: Scanned)
    requires Complete(r) && !LabelSafe(r)
    ensures FromLabel(PercentDecoded(LabelText(r))).account != r.account
  {
    hide PercentEncoded, PercentDecoded, LabelText, FromLabel, Trim, IsTrimmed;
    LabelDecodes(r);
    AccountRead(r);
    TrimIsTrimmed(AccountText(r));
    if r.issuer.Some? {
      IssuerColonRead(r.issuer.value, AccountText(r));
    } else {
      assert [] + AccountText(r) == AccountText(r);
      AccountColonRead(AccountText(r));
    }
  }

  lemma {:induction false} LongerThanAccount(before: string, account: string)
    requires IsTrimmed(account)
    ensures |Trim(before + [':'] + account)| > |account|
  {
    hide IsWhitespace;
    var s := before + [':'] + account;
    if before != [] && IsWhitespace(before[0]) {
      LongerThanAccount(before[1..], account);
      assert s[1..] == before[1..] + [':'] + account;
    } else {
      assert !IsWhitespace(':') by { ColonIsText(); }
      assert IsTrimmed(s);
      TrimIsTrimmed(s);
    }
  }

  lemma ColonIsText()
    ensures !IsWhitespace(':')
  {
  }

  // -- the whole URI

  predicate NoSpace(s: string) {
    forall i :: 0 <= i < |s| ==> !IsWhitespace(s[i])
  }

  lemma PlainIsSafe(s: string)
    requires AllPlain(s)
    ensures NoSpace(s) && '&' !in s && '?' !in s
  {
  }

  lemma ParamIsSafe(r: Scanned, p: Param)
    requires Complete(r) && Usable(r, p)
    ensures NoSpace(ParamText(r, p)) && '&' !in ParamText(r, p)
  {
    hide ValueText, IsPlain;
    if p.Known? {
      ValueIsPlain(r, p.field);
      PlainIsSafe(ValueText(r, p.field));
      LowercaseOfKey(p.key, p.field);
    }
  }

  lemma LabelIsSafe(r: Scanned)
    ensures NoSpace(LabelText(r)) && '?' !in LabelText(r)
  {
    hide PercentEncoded, IsPlain, AccountText;
    EncodedIsPlain(AccountText(r));
    PlainIsSafe(PercentEncoded(AccountText(r)));
    if r.issuer.Some? {
      EncodedIsPlain(r.issuer.value);
      PlainIsSafe(PercentEncoded(r.issuer.value));
    }
  }

  lemma {:induction false} JoinNoSpace(texts: seq<string>)
    requires texts != [] && forall i :: 0 <= i < |texts| ==> NoSpace(texts[i])
    ensures NoSpace(Join(texts, '&'))
  {
    if |texts| > 1 {
      JoinNoSpace(texts[1..]);
    }
  }

  lemma RenderIsTrimmed(r: Scanned, params: seq<Param>)
    requires Complete(r) && params != [] && forall i :: 0 <= i < |params| ==> Usable(r, params[i])
    ensures Trim(Render(r, params)) == Render(r, params)
  {
    hide LabelText, ParamText, Usable, Complete, Trim, IsWhitespace, Join;
    var texts := ParamTexts(r, params);
    LabelIsSafe(r);
    forall i | 0 <= i < |texts|
      ensures NoSpace(texts[i])
    {
      ParamIsSafe(r, params[i]);
    }
    JoinNoSpace(texts);
    assert NoSpace(TOTP) && NoSpace(['?']) by { SchemeNoSpace(); }
    assert NoSpace(Render(r, params));
    TrimIsTrimmed(Render(r, params));
  }

  lemma SchemeNoSpace()
    ensures NoSpace(TOTP) && NoSpace(['?'])
  {
  }

  lemma RenderSplits(r: Scanned, params: seq<Param>)
    requires Complete(r) && params != [] && forall i :: 0 <= i < |params| ==> Usable(r, params[i])
    ensures AfterScheme(Render(r, params)).Ok?
    ensures var (name, query) := LabelAndQuery(AfterScheme(Render(r, params)).value);
            name == LabelText(r) && Split(query, '&') == ParamTexts(r, params)
  {
    hide LabelText, ParamText, Usable, Complete, Join, Split, SplitOnce;
    var texts := ParamTexts(r, params);
    var query := Join(texts, '&');
    var rest := LabelText(r) + ['?'] + query;
    assert Render(r, params) == TOTP + rest;
    LabelIsSafe(r);
    SplitOnceAt(LabelText(r), '?', query);
    forall i | 0 <= i < |texts|
      ensures '&' !in texts[i]
    {
      ParamIsSafe(r, params[i]);
    }
    SplitJoin(texts, '&');
  }

  lemma CoversIsUsable(r: Scanned, params: seq<Param>)
    requires Covers(r, params)
    ensures params != [] && forall i :: 0 <= i < |params| ==> Usable(r, params[i])
  {
    hide Usable;
    assert Has(r, Secret);
  }

  lemma RenderParsed(r: Scanned, params: seq<Param>)
    requires Complete(r) && params != [] && forall i :: 0 <= i < |params| ==> Usable(r, params[i])
    ensures var out := Merge(FromLabel(PercentDecoded(LabelText(r))), r, Fields(params));
            Parsed(Render(r, params)) == if out.secret == [] then Err(NoSecret) else Ok(out)
  {
    hide LabelText, Render, Trim, Usable, AfterScheme, LabelAndQuery, WithPairs, FromLabel, PercentDecoded, Fields, Merge,
      Complete, ParamTexts, Split;
    RenderIsTrimmed(r, params);
    RenderSplits(r, params);
    ParamsMerge(FromLabel(PercentDecoded(LabelText(r))), r, params);
  }

  /** With every field named, the merge is the record itself, if the label gave its two names. */
  lemma MergeIsRecord(start: Scanned, r: Scanned, params: seq<Param>)
    requires Covers(r, params)
    ensures start == EMPTY.(issuer := r.issuer, account := r.account) ==> Merge(start, r, Fields(params)) == r
    ensures start.account != r.account ==> Merge(start, r, Fields(params)) != r
  {
    hide Fields, Covers;
    CoversAll(r, params);
    assert Secret in Fields(params);
    assert Algorithm in Fields(params) || r.algorithm.None?;
    assert Digits in Fields(params) || r.digits.None?;
    assert Period in Fields(params) || r.period.None?;
  }

  /**
   The URI of a record, with its parameters in any order, under any spelling of their
   names and with unknown ones mixed in, parses back to the record exactly when the first
   colon of the label is the one between issuer and account.
   */
  lemma RoundTripIff(r: Scanned, params: seq<Param>)
    requires Complete(r) && Covers(r, params)
    ensures params != [] && forall i :: 0 <= i < |params| ==> Usable(r, params[i])
    ensures Parsed(Render(r, params)) == Ok(r) <==> LabelSafe(r)
  {
    hide LabelText, Render, Parsed, Usable, LabelSafe, FromLabel, PercentDecoded, Fields, Merge, Covers;
    CoversIsUsable(r, params);
    RenderParsed(r, params);
    MergeIsRecord(FromLabel(PercentDecoded(LabelText(r))), r, params);
    if LabelSafe(r) {
      SafeLabelRead(r);
    } else {
      UnsafeLabelRead(r);
    }
  }

  // ------------------------------------------------------ what parsing gives

  lemma FromLabelIsTidy(text: string)
    ensures Tidy(FromLabel(text))
  {
    hide IsWhitespace, Trim;
    match SplitOnce(text, ':') {
      case Some((issuer, account)) =>
        TrimIsTrimmed(issuer);
        TrimIsTrimmed(account);
      case None =>
        TrimIsTrimmed(text);
    }
  }

  lemma WithPairIsTidy(out: Scanned, pair: string)
    requires Tidy(out)
    ensures Tidy(WithPair(out, pair))
  {
    hide IsWhitespace, Trim, SplitOnce, PercentDecoded, FieldOf, Lowercase, ParseUnsigned, AlgoFrom;
    match SplitOnce(pair, '=') {
      case None =>
      case Some((k, v)) => TrimIsTrimmed(PercentDecoded(v));
    }
  }

  lemma {:induction false} WithPairsIsTidy(out: Scanned, pairs: seq<string>)
    requires Tidy(out)
    ensures Tidy(WithPairs(out, pairs))
  {
    hide Tidy, WithPair;
    if pairs != [] {
      WithPairsIsTidy(out, pairs[..|pairs| - 1]);
      WithPairIsTidy(WithPairs(out, pairs[..|pairs| - 1]), pairs[|pairs| - 1]);
    }
  }

  /** Every record the parser gives, from any text, is one that can be rendered. */
  lemma ParsedIsComplete(uri: string)
    ensures Parsed(uri).Ok? ==> Complete(Parsed(uri).value)
  {
    hide Trim, PercentDecoded, FromLabel, WithPairs, Split, IsTrimmed;
    match AfterScheme(Trim(uri)) {
      case Err(e) =>
      case Ok(rest) =>
        var (name, query) := LabelAndQuery(rest);
        FromLabelIsTidy(PercentDecoded(name));
        WithPairsIsTidy(FromLabel(PercentDecoded(name)), Split(query, '&'));
    }
  }

  // -------------------------------------------------------- parsing, exactly

  /** The digits of an escape, in either case. */
  lemma HexIff(b: byte, v: nat)
    requires v < 16
    ensures HexVal(b) == Some(v) <==> b == "0123456789abcdef"[v] as int || b == "0123456789ABCDEF"[v] as int
  {
  }

  lemma UnescapeStep(b: seq<byte>)
    requires b != []
    ensures Unescaped(b) ==
            if IsEscape(b) then [EscapedByte(b)] + Unescaped(b[3..])
            else [if b[0] == PLUS then SPACE else b[0]] + Unescaped(b[1..])
  {
    hide IsEscape, EscapedByte;
  }

  /** An escape is one byte ... */
  lemma UnescapeEscape(h: byte, l: byte, rest: seq<byte>)
    requires HexVal(h).Some? && HexVal(l).Some?
    ensures Unescaped([0x25, h, l] + rest) == [HexVal(h).value * 16 + HexVal(l).value] + Unescaped(rest)
  {
    hide HexVal, Unescaped;
    var all := [0x25, h, l] + rest;
    UnescapeStep(all);
    assert all[0] == 0x25 && all[1] == h && all[2] == l && all[3..] == rest;
  }

  /** ... a plus sign a space, and everything else itself, also a percent sign that starts no escape. */
  lemma UnescapeOther(c: byte, rest: seq<byte>)
    requires c != 0x25 || |rest| < 2 || HexVal(rest[0]).None? || HexVal(rest[1]).None?
    ensures Unescaped([c] + rest) == [if c == 0x2B then 0x20 else c] + Unescaped(rest)
  {
    hide HexVal, Unescaped;
    var all := [c] + rest;
    assert !IsEscape(all) by {
      if |rest| >= 2 {
        assert all[0] == c && all[1] == rest[0] && all[2] == rest[1];
      }
    }
    hide IsEscape;
    UnescapeStep(all);
    assert all[0] == c && all[1..] == rest;
  }

  /** A decimal number, with or without a plus sign, up to the maximum; nothing else. */
  lemma UnsignedIff(s: string, max: nat, n: nat)
    ensures ParseUnsigned(s, max) == Some(n) <==>
            exists t: string :: (s == t || (s == "+" + t)) && t != [] && AllDigits(t) && DigitsValue(t) == n && n <= max
  {
    var t := if |s| > 1 && s[0] == '+' then s[1..] else s;
    if ParseUnsigned(s, max) == Some(n) {
      assert s == t || s == "+" + t;
    }
    forall u: string | (s == u || s == "+" + u) && u != [] && AllDigits(u)
      ensures u == t
    {
      assert IsDigit(u[0]) && !IsDigit('+');
    }
  }

  /** The label: what is before its first colon and after it, or the account alone; blank parts are absent. */
  lemma LabelRead(a: string, b: string)
    requires ':' !in a
    ensures FromLabel(a + ":" + b) ==
            Scanned(if Trim(a) == "" then None else Some(Trim(a)), if Trim(b) == "" then None else Some(Trim(b)),
                    "", None, None, None)
    ensures FromLabel(a) == Scanned(None, if Trim(a) == "" then None else Some(Trim(a)), "", None, None, None)
  {
    hide Trim;
    SplitOnceAt(a, ':', b);
  }

  /** The decoded value of the last parameter of that name, in any case of its letters. */
  function LastValue(pairs: seq<string>, name: string): Option<string> {
    if pairs == [] then None
    else
      var last := pairs[|pairs| - 1];
      match SplitOnce(last, '=')
      case Some((k, v)) =>
        if Lowercase(k) == name then Some(PercentDecoded(v)) else LastValue(pairs[..|pairs| - 1], name)
      case None => LastValue(pairs[..|pairs| - 1], name)
  }

  /** The last issuer parameter that is not blank. */
  function LastIssuer(pairs: seq<string>): Option<string> {
    if pairs == [] then None
    else
      var last := pairs[|pairs| - 1];
      match SplitOnce(last, '=')
      case Some((k, v)) =>
        if Lowercase(k) == "issuer" && Trim(PercentDecoded(v)) != "" then Some(Trim(PercentDecoded(v)))
        else LastIssuer(pairs[..|pairs| - 1])
      case None => LastIssuer(pairs[..|pairs| - 1])
  }

  /** What the parameters make of a record from the label. */
  ghost predicate SetBy(out: Scanned, start: Scanned, pairs: seq<string>) {
    && out.account == start.account
    && out.issuer == (if LastIssuer(pairs).Some? then LastIssuer(pairs) else start.issuer)
    && out.secret == (match LastValue(pairs, "secret") case Some(v) => Trim(v) case None => start.secret)
    && out.algorithm == (match LastValue(pairs, "algorithm") case Some(v) => AlgorithmNamed(v) case None => start.algorithm)
    && out.digits == (match LastValue(pairs, "digits") case Some(v) => ParseUnsigned(Trim(v), 255) case None => start.digits)
    && out.period == (match LastValue(pairs, "period") case Some(v) => ParseUnsigned(Trim(v), 65535) case None => start.period)
  }

  function AlgorithmNamed(v: string): Option<Algo> {
    var u := Uppercase(v);
    if u == "SHA1" then Some(Sha1) else if u == "SHA256" then Some(Sha256) else if u == "SHA512" then Some(Sha512) else None
  }

  lemma FieldNames(key: string)
    ensures FieldOf(key) == Some(Secret) <==> key == "secret"
    ensures FieldOf(key) == Some(Issuer) <==> key == "issuer"
    ensures FieldOf(key) == Some(Algorithm) <==> key == "algorithm"
    ensures FieldOf(key) == Some(Digits) <==> key == "digits"
    ensures FieldOf(key) == Some(Period) <==> key == "period"
    ensures FieldOf(key) == None <==>
              key != "secret" && key != "issuer" && key != "algorithm" && key != "digits" && key != "period"
  {
  }

  lemma PairSets(out: Scanned, k: string, v: string)
    ensures var (f, r) := (FieldOf(k), match FieldOf(k) case None => out case Some(f) => WithValue(out, f, v));
            && r.account == out.account
            && r.issuer == (if k == "issuer" && Trim(v) != "" then Some(Trim(v)) else out.issuer)
            && r.secret == (if k == "secret" then Trim(v) else out.secret)
            && r.algorithm == (if k == "algorithm" then AlgorithmNamed(v) else out.algorithm)
            && r.digits == (if k == "digits" then ParseUnsigned(Trim(v), 255) else out.digits)
            && r.period == (if k == "period" then ParseUnsigned(Trim(v), 65535) else out.period)
  {
    hide Trim, ParseUnsigned, Uppercase, FieldOf;
    FieldNames(k);
  }

  /** Of each parameter the last one counts, of the issuer the last that is not blank, and unknown ones do not. */
  lemma {:induction false} PairsSet(start: Scanned, pairs: seq<string>)
    ensures SetBy(WithPairs(start, pairs), start, pairs)
  {
    hide Trim, ParseUnsigned, AlgorithmNamed, PercentDecoded, SplitOnce, Lowercase, FieldOf, WithValue;
    if pairs != [] {
      var last := pairs[|pairs| - 1];
      PairsSet(start, pairs[..|pairs| - 1]);
      match SplitOnce(last, '=') {
        case Some((k, v)) => PairSets(WithPairs(start, pairs[..|pairs| - 1]), Lowercase(k), PercentDecoded(v));
        case None =>
      }
    }
  }

  /** Which texts are refused as no or another kind of code, before anything else is read. */
  lemma SchemeIff(uri: string)
    ensures Parsed(uri) == Err(HotpCode) <==> "otpauth://hotp/" <= Trim(uri)
    ensures Parsed(uri) == Err(NotTotp) <==>
            !("otpauth://totp/" <= Trim(uri)) && !("otpauth://TOTP/" <= Trim(uri)) && !("otpauth://hotp/" <= Trim(uri))
  {
    Schemes();
    hide Trim, WithPairs, FromLabel, PercentDecoded, Split, LabelAndQuery;
    var u := Trim(uri);
    assert TOTP <= u ==> u[10] == 't';
    assert TOTP_UPPER <= u ==> u[10] == 'T';
    assert HOTP <= u ==> u[10] == 'h';
  }

  lemma Schemes()
    ensures TOTP == "otpauth://totp/" && TOTP_UPPER == "otpauth://TOTP/" && HOTP == "otpauth://hotp/"
    ensures |TOTP| == |TOTP_UPPER| == |HOTP| == 15
    ensures TOTP[10] == 't' && TOTP_UPPER[10] == 'T' && HOTP[10] == 'h'
  {
  }

  /**
   A time-based URI in full: its label, and of its parameters the last ones; without a secret that
   is not blank there is no record.
   */
  lemma ParsedExactly(uri: string, name: string, query: string)
    requires '?' !in name
    requires Trim(uri) == "otpauth://totp/" + name + "?" + query || Trim(uri) == "otpauth://TOTP/" + name + "?" + query ||
             (query == "" && (Trim(uri) == "otpauth://totp/" + name || Trim(uri) == "otpauth://TOTP/" + name))
    ensures var (pairs, r) := (Split(query, '&'), Parsed(uri));
            if LastValue(pairs, "secret").None? || Trim(LastValue(pairs, "secret").value) == "" then r == Err(NoSecret)
            else r.Ok? && SetBy(r.value, FromLabel(PercentDecoded(name)), pairs)
  {
    hide Trim, WithPairs, FromLabel, PercentDecoded, Split, LastValue, LastIssuer, ParseUnsigned, AlgorithmNamed;
    AfterSchemeIs(uri, name, query);
    var start := FromLabel(PercentDecoded(name));
    PairsSet(start, Split(query, '&'));
    LabelHasNoSecret(PercentDecoded(name));
  }

  lemma LabelHasNoSecret(text: string)
    ensures FromLabel(text).secret == ""
  {
    hide Trim, SplitOnce;
  }

  lemma AfterSchemeIs(uri: string, name: string, query: string)
    requires '?' !in name
    requires Trim(uri) == "otpauth://totp/" + name + "?" + query || Trim(uri) == "otpauth://TOTP/" + name + "?" + query ||
             (query == "" && (Trim(uri) == "otpauth://totp/" + name || Trim(uri) == "otpauth://TOTP/" + name))
    ensures AfterScheme(Trim(uri)).Ok? && LabelAndQuery(AfterScheme(Trim(uri)).value) == (name, query)
  {
    hide Trim, SplitOnce;
    Schemes();
    var u := Trim(uri);
    assert TOTP <= u || TOTP_UPPER <= u;
    assert TOTP <= u ==> u[10] == 't';
    assert TOTP_UPPER <= u ==> u[10] == 'T';
    if u == "otpauth://totp/" + name + "?" + query || u == "otpauth://TOTP/" + name + "?" + query {
      assert u[15..] == name + ['?'] + query;
      SplitOnceAt(name, '?', query);
    } else {
      assert u[15..] == name;
      NoSplit(name, '?');
    }
  }

  lemma NoSplit(s: string, c: char)
    requires c !in s
    ensures SplitOnce(s, c) == None
  {
  }
}
