/** The settings file: `key = value` lines written by `save` and read by `load`. */
module Config {
  import opened Bytes
  import opened Text

  datatype Persisted = Persisted(
    transport: Option<string>,
    hotkeyEnabled: bool,
    hotkeyCtrl: bool,
    hotkeyShift: bool,
    hotkeyAlt: bool,
    hotkeyMeta: bool,
    hotkeyKey: Option<string>,
    hotkeyAppendEnter: bool)

  const DEFAULT: Persisted := Persisted(None, false, false, false, false, false, None, false)

  // ------------------------------------------------------------------ saving

  function BoolText(b: bool): string {
    if b then "true" else "false"
  }

  /** The keys of the file. */
  datatype Key = Transport | Enabled | Ctrl | Shift | Alt | Meta | Letter | AppendEnter

  function KeyText(k: Key): string {
    match k
    case Transport => "transport"
    case Enabled => "hotkey_enabled"
    case Ctrl => "hotkey_ctrl"
    case Shift => "hotkey_shift"
    case Alt => "hotkey_alt"
    case Meta => "hotkey_meta"
    case Letter => "hotkey_key"
    case AppendEnter => "hotkey_append_enter"
  }

  /** What is written for a key, if anything. */
  function ValueOf(p: Persisted, k: Key): Option<string> {
    match k
    case Transport => p.transport
    case Enabled => Some(BoolText(p.hotkeyEnabled))
    case Ctrl => Some(BoolText(p.hotkeyCtrl))
    case Shift => Some(BoolText(p.hotkeyShift))
    case Alt => Some(BoolText(p.hotkeyAlt))
    case Meta => Some(BoolText(p.hotkeyMeta))
    case Letter => p.hotkeyKey
    case AppendEnter => Some(BoolText(p.hotkeyAppendEnter))
  }

  function Header(): string {
    "# T2 TOTP Authenticator settings"
  }

  function FirstLine(): string {
    Header() + "\n"
  }

  const KEY_COUNT: nat := 8

  /** The place of a key in the file. */
  function Rank(k: Key): (n: nat)
    ensures n < KEY_COUNT
  {
    match k
    case Transport => 0
    case Enabled => 1
    case Ctrl => 2
    case Shift => 3
    case Alt => 4
    case Meta => 5
    case Letter => 6
    case AppendEnter => 7
  }

  function KeyAt(n: nat): (k: Key)
    requires n < KEY_COUNT
    ensures forall l: Key :: l == k <==> Rank(l) == n
  {
    if n == 0 then Transport
    else if n == 1 then Enabled
    else if n == 2 then Ctrl
    else if n == 3 then Shift
    else if n == 4 then Alt
    else if n == 5 then Meta
    else if n == 6 then Letter
    else AppendEnter
  }

  /** `key = value`. */
  function Line(key: string, value: string): string {
    key + " = " + value
  }

  function OptionalLine(p: Persisted, k: Key): string {
    match ValueOf(p, k)
    case None => []
    case Some(v) => Line(KeyText(k), v) + "\n"
  }

  /** The file with the lines of the first `n` keys. */
  function FileText(p: Persisted, n: nat): string
    requires n <= KEY_COUNT
  {
    if n == 0 then FirstLine() else FileText(p, n - 1) + OptionalLine(p, KeyAt(n - 1))
  }

  lemma FileTextNext(p: Persisted, k: Key)
    ensures FileText(p, Rank(k) + 1) == FileText(p, Rank(k)) + OptionalLine(p, k)
  {
  }

  method PushLine(s: string, key: Key, value: string) returns (t: string)
    ensures t == s + (Line(KeyText(key), value) + "\n")
  {
    t := s + KeyText(key) + " = " + value + "\n";
  }

  method PushFlag(p: Persisted, s: string, key: Key, flag: bool) returns (t: string)
    requires s == FileText(p, Rank(key)) && ValueOf(p, key) == Some(BoolText(flag))
    ensures t == FileText(p, Rank(key) + 1)
  {
    hide FileText, Line, BoolText, KeyText, ValueOf, KeyAt, Rank;
    FileTextNext(p, key);
    t := PushLine(s, key, BoolText(flag));
  }

  method PushText(p: Persisted, s: string, key: Key, text: Option<string>) returns (t: string)
    requires s == FileText(p, Rank(key)) && ValueOf(p, key) == text
    ensures t == FileText(p, Rank(key) + 1)
  {
    hide FileText, Line, KeyText, ValueOf, KeyAt, Rank;
    FileTextNext(p, key);
    if text.Some? {
      t := PushLine(s, key, text.value);
    } else {
      t := s;
    }
  }

  lemma NothingYet(p: Persisted)
    ensures FileText(p, 0) == FirstLine()
  {
    hide FirstLine;
  }

  lemma RanksInOrder()
    ensures Rank(Transport) == 0 && Rank(Enabled) == 1 && Rank(Ctrl) == 2 && Rank(Shift) == 3
    ensures Rank(Alt) == 4 && Rank(Meta) == 5 && Rank(Letter) == 6 && Rank(AppendEnter) == 7
  {
  }

  lemma ValuesOf(p: Persisted)
    ensures ValueOf(p, Transport) == p.transport && ValueOf(p, Letter) == p.hotkeyKey
    ensures ValueOf(p, Enabled) == Some(BoolText(p.hotkeyEnabled)) && ValueOf(p, Ctrl) == Some(BoolText(p.hotkeyCtrl))
    ensures ValueOf(p, Shift) == Some(BoolText(p.hotkeyShift)) && ValueOf(p, Alt) == Some(BoolText(p.hotkeyAlt))
    ensures ValueOf(p, Meta) == Some(BoolText(p.hotkeyMeta))
    ensures ValueOf(p, AppendEnter) == Some(BoolText(p.hotkeyAppendEnter))
  {
    hide BoolText;
  }

  method Save(p: Persisted) returns (s: string)
    ensures s == FileText(p, KEY_COUNT)
  {
    hide FirstLine, BoolText, KeyText, OptionalLine, FileText, Rank, KeyAt, ValueOf;
    RanksInOrder();
    ValuesOf(p);
    NothingYet(p);
    s := FirstLine();
    s := PushText(p, s, Transport, p.transport);
    s := PushFlag(p, s, Enabled, p.hotkeyEnabled);
    s := PushFlag(p, s, Ctrl, p.hotkeyCtrl);
    s := PushFlag(p, s, Shift, p.hotkeyShift);
    s := PushFlag(p, s, Alt, p.hotkeyAlt);
    s := PushFlag(p, s, Meta, p.hotkeyMeta);
    s := PushText(p, s, Letter, p.hotkeyKey);
    s := PushFlag(p, s, AppendEnter, p.hotkeyAppendEnter);
  }

  // ----------------------------------------------------------------- loading

  /** `str::lines`: pieces ending in a line break, without it and without a carriage return before it. */
  function Lines(s: string): seq<string>
    decreases |s|
  {
    if s == [] then []
    else
      var i := IndexOf(s, '\n');
      if i == |s| then [s] else [WithoutCr(s[..i])] + Lines(s[i + 1..])
  }

  function WithoutCr(l: string): string {
    if l != [] && l[|l| - 1] == '\r' then l[..|l| - 1] else l
  }

  /** The key and value of a line, if it is neither blank nor a comment and has an equals sign. */
  function LinePair(l: string): Option<(string, string)> {
    var t := Trim(l);
    if t == [] || t[0] == '#' then None
    else
      match SplitOnce(t, '=')
      case None => None
      case Some((k, v)) => Some((Trim(k), Trim(v)))
  }

  /** The pairs of the lines, later ones replacing earlier ones. */
  function MapOf(ls: seq<string>): map<string, string> {
    if ls == [] then map[]
    else
      var m := MapOf(ls[..|ls| - 1]);
      match LinePair(ls[|ls| - 1])
      case None => m
      case Some((k, v)) => m[k := v]
  }

  function Flag(m: map<string, string>, k: string, absent: bool): bool {
    if k in m then m[k] == "true" else absent
  }

  function Lookup(m: map<string, string>, k: string): Option<string> {
    if k in m then Some(m[k]) else None
  }

  function LoadedFrom(m: map<string, string>): Persisted {
    Persisted(Lookup(m, KeyText(Transport)), Flag(m, KeyText(Enabled), false), Flag(m, KeyText(Ctrl), false),
              Flag(m, KeyText(Shift), false), Flag(m, KeyText(Alt), false), Flag(m, KeyText(Meta), false),
              Lookup(m, KeyText(Letter)), Flag(m, KeyText(AppendEnter), true))
  }

  function Loaded(text: string): Persisted {
    LoadedFrom(MapOf(Lines(text)))
  }

  method Load(text: string) returns (out: Persisted)
    ensures out == Loaded(text)
  {
    hide MapOf, Lines, KeyText;
    out := DEFAULT;
    var m := MapOf(Lines(text));
    if KeyText(Transport) in m {
      out := out.(transport := Some(m[KeyText(Transport)]));
    }
    out := out.(hotkeyEnabled := Flag(m, KeyText(Enabled), false));
    out := out.(hotkeyCtrl := Flag(m, KeyText(Ctrl), false));
    out := out.(hotkeyShift := Flag(m, KeyText(Shift), false));
    out := out.(hotkeyAlt := Flag(m, KeyText(Alt), false));
    out := out.(hotkeyMeta := Flag(m, KeyText(Meta), false));
    out := out.(hotkeyKey := Lookup(m, KeyText(Letter)));
    out := out.(hotkeyAppendEnter := Flag(m, KeyText(AppendEnter), true));
  }

  // -------------------------------------------------------------- round trip

  /** A value that a line can hold: no line break inside and no white space outside. */
  predicate FitsLine(v: string) {
    '\n' !in v && IsTrimmed(v)
  }

  predicate Savable(p: Persisted) {
    (p.transport.Some? ==> FitsLine(p.transport.value)) && (p.hotkeyKey.Some? ==> FitsLine(p.hotkeyKey.value))
  }

  /** A key as the program writes them. */
  predicate IsKey(k: string) {
    k != [] && IsTrimmed(k) && k[0] != '#' && '=' !in k && '\n' !in k
  }

  lemma KeysAreKeys(k: Key)
    ensures IsKey(KeyText(k))
  {
    hide IsWhitespace;
    var t := KeyText(k);
    assert forall i :: 0 <= i < |t| ==> 'a' <= t[i] <= 'z' || t[i] == '_';
    LetterIsText(t[0]);
    LetterIsText(t[|t| - 1]);
  }

  lemma LetterIsText(c: char)
    requires 'a' <= c <= 'z'
    ensures !IsWhitespace(c)
  {
  }

  lemma KeyTextInjective(k: Key, l: Key)
    requires KeyText(k) == KeyText(l)
    ensures k == l
  {
  }

  lemma KeyTrims(key: string)
    requires IsKey(key)
    ensures Trim(key + " ") == key
  {
    hide IsWhitespace;
    SpaceFacts();
    TrimPadded([], key, " ");
    assert [] + key + " " == key + " ";
  }

  lemma EmptyLineRead(key: string)
    requires IsKey(key)
    ensures LinePair(Line(key, [])) == Some((key, []))
  {
    hide IsWhitespace;
    SpaceFacts();
    var t := key + " =";
    TrimPadded([], t, " ");
    assert [] + t + " " == Line(key, []);
    assert t == key + " " + ['='] + [];
    SplitOnceAt(key + " ", '=', []);
    KeyTrims(key);
    TrimIsTrimmed([]);
  }

  lemma FullLineRead(key: string, value: string)
    requires IsKey(key) && FitsLine(value) && value != []
    ensures LinePair(Line(key, value)) == Some((key, value))
  {
    hide IsWhitespace, Trim;
    SpaceFacts();
    var l := Line(key, value);
    assert l[0] == key[0] && l[|l| - 1] == value[|value| - 1];
    TrimIsTrimmed(l);
    assert l == key + " " + ['='] + (" " + value);
    SplitOnceAt(key + " ", '=', " " + value);
    KeyTrims(key);
    TrimPadded(" ", value, []);
    assert " " + value + [] == " " + value;
  }

  /** A written line reads as its key and value. */
  lemma LineRead(key: string, value: string)
    requires IsKey(key) && FitsLine(value)
    ensures LinePair(Line(key, value)) == Some((key, value))
  {
    hide IsKey, FitsLine, LinePair, Line;
    if value == [] {
      EmptyLineRead(key);
    } else {
      FullLineRead(key, value);
    }
  }

  lemma SpaceFacts()
    ensures IsWhitespace(' ') && !IsWhitespace('=') && IsWhitespace('\r')
  {
  }

  /** Text that ends where a line ends. */
  predicate EndsLine(t: string) {
    t != [] && t[|t| - 1] == '\n'
  }

  lemma LinesCons(a: string, b: string)
    requires '\n' !in a
    ensures Lines(a + ['\n'] + b) == [WithoutCr(a)] + Lines(b)
  {
    hide IndexOf;
    var s := a + ['\n'] + b;
    IndexOfFirst(a, '\n', b);
    assert s[..|a|] == a && s[|a| + 1..] == b;
  }

  lemma {:induction false} LinesAppend(t: string, l: string)
    requires t == [] || EndsLine(t)
    requires '\n' !in l && (l == [] || l[|l| - 1] != '\r')
    ensures Lines(t + (l + "\n")) == Lines(t) + [l]
    decreases |t|
  {
    hide Lines, IndexOf;
    NoLines();
    if t == [] {
      LinesCons(l, []);
      assert t + (l + "\n") == l + ['\n'] + [];
    } else {
      var i := IndexOf(t, '\n');
      var a, b := t[..i], t[i + 1..];
      assert t == a + ['\n'] + b;
      LinesCons(a, b);
      LinesCons(a, b + (l + "\n"));
      assert t + (l + "\n") == a + ['\n'] + (b + (l + "\n"));
      LinesAppend(b, l);
    }
  }

  lemma MapOfAppend(ls: seq<string>, l: string)
    ensures MapOf(ls + [l]) == match LinePair(l) case None => MapOf(ls) case Some((k, v)) => MapOf(ls)[k := v]
  {
    hide LinePair;
    assert (ls + [l])[..|ls|] == ls;
  }

  lemma ValuesFit(p: Persisted, k: Key)
    requires Savable(p) && ValueOf(p, k).Some?
    ensures FitsLine(ValueOf(p, k).value)
  {
    hide IsWhitespace;
    LetterIsText('t');
    LetterIsText('f');
    LetterIsText('e');
  }

  lemma HeaderIsComment()
    ensures '\n' !in Header() && LinePair(Header()) == None && Header()[|Header()| - 1] != '\r'
  {
    hide IsWhitespace;
    LetterIsText('s');
    assert !IsWhitespace('#') by { HashIsText(); }
    TrimIsTrimmed(Header());
  }

  lemma HashIsText()
    ensures !IsWhitespace('#')
  {
  }

  /** The map of a saved file has exactly the values written for its keys. */
  lemma {:induction false} SavedMap(p: Persisted, n: nat, k: Key)
    requires Savable(p) && n <= KEY_COUNT
    ensures EndsLine(FileText(p, n))
    ensures var m := MapOf(Lines(FileText(p, n)));
            Lookup(m, KeyText(k)) == if Rank(k) < n then ValueOf(p, k) else None
  {
    hide Header, Lines, LinePair, Line, KeyText, IsWhitespace, Savable, ValueOf, MapOf, Rank, KeyAt;
    if n == 0 {
      HeaderIsComment();
      NoLines();
      LinesAppend([], Header());
      assert [] + (Header() + "\n") == FileText(p, n);
      MapOfAppend([], Header());
    } else {
      SavedMap(p, n - 1, k);
      var last, before := KeyAt(n - 1), FileText(p, n - 1);
      if ValueOf(p, last).Some? {
        var key, value := KeyText(last), ValueOf(p, last).value;
        KeysAreKeys(last);
        ValuesFit(p, last);
        LineRead(key, value);
        LineEnds(key, value);
        LinesAppend(before, Line(key, value));
        MapOfAppend(Lines(before), Line(key, value));
        if KeyText(k) == KeyText(last) {
          KeyTextInjective(k, last);
        }
      } else {
        assert before + [] == before;
      }
    }
  }

  lemma NoLines()
    ensures Lines([]) == [] && MapOf([]) == map[]
  {
  }

  lemma LineEnds(key: string, value: string)
    requires IsKey(key) && FitsLine(value)
    ensures '\n' !in Line(key, value) && Line(key, value)[|Line(key, value)| - 1] != '\r'
  {
    hide IsWhitespace;
    SpaceFacts();
  }

  // -- every loaded value fits a line

  lemma {:induction false} LinesHaveNoBreak(s: string, i: nat)
    requires i < |Lines(s)|
    ensures '\n' !in Lines(s)[i]
    decreases |s|
  {
    var n := IndexOf(s, '\n');
    if n < |s| && i > 0 {
      LinesHaveNoBreak(s[n + 1..], i - 1);
    }
  }

  lemma TrimHasNoBreak(s: string)
    requires '\n' !in s
    ensures '\n' !in Trim(s)
  {
    hide IsWhitespace;
    var w := TrimStartSplit(s);
    var v := TrimEndSplit(TrimStart(s));
    assert forall c :: c in Trim(s) ==> c in TrimStart(s);
    assert forall c :: c in TrimStart(s) ==> c in s;
  }

  lemma LinePairFits(l: string)
    requires '\n' !in l && LinePair(l).Some?
    ensures FitsLine(LinePair(l).value.1)
  {
    hide IsWhitespace, Trim, IsTrimmed;
    var t := Trim(l);
    TrimHasNoBreak(l);
    var v := SplitOnce(t, '=').value.1;
    assert forall c :: c in v ==> c in t;
    TrimHasNoBreak(v);
    TrimIsTrimmed(v);
  }

  lemma {:induction false} MapValuesFit(ls: seq<string>, k: string)
    requires forall i :: 0 <= i < |ls| ==> '\n' !in ls[i]
    requires k in MapOf(ls)
    ensures FitsLine(MapOf(ls)[k])
  {
    hide LinePair, FitsLine;
    var n := |ls| - 1;
    if LinePair(ls[n]).Some? {
      LinePairFits(ls[n]);
      if LinePair(ls[n]).value.0 != k {
        MapValuesFit(ls[..n], k);
      }
    } else {
      MapValuesFit(ls[..n], k);
    }
  }

  lemma LoadedIsSavable(text: string)
    ensures Savable(Loaded(text))
  {
    hide Lines, MapOf, KeyText, FitsLine;
    var ls := Lines(text);
    forall i | 0 <= i < |ls|
      ensures '\n' !in ls[i]
    {
      LinesHaveNoBreak(text, i);
    }
    forall k | k in MapOf(ls)
      ensures FitsLine(MapOf(ls)[k])
    {
      MapValuesFit(ls, k);
    }
  }

  /**
   Saving and loading gives the same settings exactly when the two texts have no line
   break inside and no white space outside; equals signs and number signs do no harm.
   */
  lemma RoundTripIff(p: Persisted)
    ensures Loaded(FileText(p, KEY_COUNT)) == p <==> Savable(p)
  {
    hide Lines, MapOf, KeyText, FileText, Savable;
    LoadedIsSavable(FileText(p, KEY_COUNT));
    if Savable(p) {
      var m := MapOf(Lines(FileText(p, KEY_COUNT)));
      forall k: Key
        ensures Lookup(m, KeyText(k)) == ValueOf(p, k)
      {
        SavedMap(p, KEY_COUNT, k);
      }
      assert LoadedFrom(m) == p;
    }
  }

  // -------------------------------------------------------- loading, exactly

  /** The value of the last line that sets `key`. */
  function LastLine(ls: seq<string>, key: string): Option<string> {
    if ls == [] then None
    else
      var l := Trim(ls[|ls| - 1]);
      if l != "" && l[0] != '#' && '=' in l && Trim(l[..IndexOf(l, '=')]) == key then
        Some(Trim(l[IndexOf(l, '=') + 1..]))
      else LastLine(ls[..|ls| - 1], key)
  }

  lemma {:induction false} MapIsLastLine(ls: seq<string>, key: string)
    ensures LastLine(ls, key) == if key in MapOf(ls) then Some(MapOf(ls)[key]) else None
  {
    hide Trim, IndexOf;
    if ls != [] {
      MapIsLastLine(ls[..|ls| - 1], key);
    }
  }

  /** The names of the settings. */
  lemma KeyNames()
    ensures KeyText(Transport) == "transport" && KeyText(Enabled) == "hotkey_enabled" && KeyText(Ctrl) == "hotkey_ctrl"
    ensures KeyText(Shift) == "hotkey_shift" && KeyText(Alt) == "hotkey_alt" && KeyText(Meta) == "hotkey_meta"
    ensures KeyText(Letter) == "hotkey_key" && KeyText(AppendEnter) == "hotkey_append_enter"
  {
  }

  /**
   Of each setting the last line counts. A text is as written and absent without one; a flag is
   true only if written as true, and without a line false, but for appending Enter, which is true.
   */
  lemma LoadedExactly(text: string)
    ensures var (ls, p) := (Lines(text), Loaded(text));
            && p.transport == LastLine(ls, "transport") && p.hotkeyKey == LastLine(ls, "hotkey_key")
            && (p.hotkeyEnabled <==> LastLine(ls, "hotkey_enabled") == Some("true"))
            && (p.hotkeyCtrl <==> LastLine(ls, "hotkey_ctrl") == Some("true"))
            && (p.hotkeyShift <==> LastLine(ls, "hotkey_shift") == Some("true"))
            && (p.hotkeyAlt <==> LastLine(ls, "hotkey_alt") == Some("true"))
            && (p.hotkeyMeta <==> LastLine(ls, "hotkey_meta") == Some("true"))
            && (p.hotkeyAppendEnter <==> LastLine(ls, "hotkey_append_enter") in {None, Some("true")})
  {
    hide Lines, MapOf, LastLine;
    var ls := Lines(text);
    KeyNames();
    MapIsLastLine(ls, KeyText(Transport));
    MapIsLastLine(ls, KeyText(Letter));
    MapIsLastLine(ls, KeyText(Enabled));
    MapIsLastLine(ls, KeyText(Ctrl));
    MapIsLastLine(ls, KeyText(Shift));
    MapIsLastLine(ls, KeyText(Alt));
    MapIsLastLine(ls, KeyText(Meta));
    MapIsLastLine(ls, KeyText(AppendEnter));
    hide KeyText;
  }

  /** The whole file, in the order of its lines. */
  lemma FileIs(p: Persisted)
    ensures FileText(p, KEY_COUNT) ==
            "# T2 TOTP Authenticator settings\n" + TextLine("transport", p.transport) +
            FlagLine("hotkey_enabled", p.hotkeyEnabled) + FlagLine("hotkey_ctrl", p.hotkeyCtrl) +
            FlagLine("hotkey_shift", p.hotkeyShift) + FlagLine("hotkey_alt", p.hotkeyAlt) +
            FlagLine("hotkey_meta", p.hotkeyMeta) + TextLine("hotkey_key", p.hotkeyKey) +
            FlagLine("hotkey_append_enter", p.hotkeyAppendEnter)
  {
    KeyNames();
    RanksInOrder();
    ValuesOf(p);
    FileTextNext(p, Transport);
    FileTextNext(p, Enabled);
    FileTextNext(p, Ctrl);
    FileTextNext(p, Shift);
    FileTextNext(p, Alt);
    FileTextNext(p, Meta);
    FileTextNext(p, Letter);
    FileTextNext(p, AppendEnter);
    NothingYet(p);
    FirstLineIs();
    LinesAre(p);
    hide FileText, KeyText, Rank, ValueOf, KeyAt, OptionalLine, FirstLine, TextLine, FlagLine;
  }

  lemma FirstLineIs()
    ensures FirstLine() == "# T2 TOTP Authenticator settings\n"
  {
  }

  function TextLine(key: string, value: Option<string>): string {
    match value case None => "" case Some(v) => key + " = " + v + "\n"
  }

  function FlagLine(key: string, value: bool): string {
    key + (if value then " = true\n" else " = false\n")
  }

  lemma LineIs(p: Persisted, k: Key)
    ensures OptionalLine(p, k) == TextLine(KeyText(k), ValueOf(p, k))
    ensures forall b: bool :: ValueOf(p, k) == Some(BoolText(b)) ==> OptionalLine(p, k) == FlagLine(KeyText(k), b)
  {
    hide KeyText, ValueOf;
    match ValueOf(p, k) {
      case None =>
      case Some(v) =>
        assert Line(KeyText(k), v) + "\n" == KeyText(k) + " = " + v + "\n";
        assert KeyText(k) + " = " + "true" + "\n" == KeyText(k) + " = true\n";
        assert KeyText(k) + " = " + "false" + "\n" == KeyText(k) + " = false\n";
    }
  }

  lemma LinesAre(p: Persisted)
    ensures OptionalLine(p, Transport) == TextLine("transport", p.transport)
    ensures OptionalLine(p, Letter) == TextLine("hotkey_key", p.hotkeyKey)
    ensures OptionalLine(p, Enabled) == FlagLine("hotkey_enabled", p.hotkeyEnabled)
    ensures OptionalLine(p, Ctrl) == FlagLine("hotkey_ctrl", p.hotkeyCtrl)
    ensures OptionalLine(p, Shift) == FlagLine("hotkey_shift", p.hotkeyShift)
    ensures OptionalLine(p, Alt) == FlagLine("hotkey_alt", p.hotkeyAlt)
    ensures OptionalLine(p, Meta) == FlagLine("hotkey_meta", p.hotkeyMeta)
    ensures OptionalLine(p, AppendEnter) == FlagLine("hotkey_append_enter", p.hotkeyAppendEnter)
  {
    KeyNames();
    ValuesOf(p);
    LineIs(p, Transport);
    LineIs(p, Letter);
    LineIs(p, Enabled);
    LineIs(p, Ctrl);
    LineIs(p, Shift);
    LineIs(p, Alt);
    LineIs(p, Meta);
    LineIs(p, AppendEnter);
    hide OptionalLine, KeyText, ValueOf, BoolText, TextLine, FlagLine;
  }

  /** Lines end at line breaks, and a carriage return before one does not belong to them. */
  lemma FirstLineOf(l: string, rest: string)
    requires '\n' !in l
    ensures Lines(l + "\n" + rest) == [if l != "" && l[|l| - 1] == '\r' then l[..|l| - 1] else l] + Lines(rest)
    ensures Lines(l) == if l == "" then [] else [l]
  {
    hide IndexOf;
    var s := l + ['\n'] + rest;
    IndexOfFirst(l, '\n', rest);
    assert s[..|l|] == l && s[|l| + 1..] == rest;
    assert IndexOf(l, '\n') == |l|;
  }
}
