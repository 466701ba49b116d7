/**
 Base32 seeds as typed by a user: section 6 of RFC 4648 with case, white space and
 padding forgiven, decoded through a 64-bit shift register that is never masked.
 */
module Base32 {
  import opened Bytes
  import opened Text

  /** The 32-character alphabet: A to Z, then 2 to 7. */
  function Letter(v: nat): char
    requires v < 32
  {
    if v < 26 then (65 + v) as char else (24 + v) as char
  }

  /** The position of a character in the alphabet. */
  function Position(c: char): (r: Option<nat>)
    ensures r.Some? ==> r.value < 32 && Letter(r.value) == c
    ensures r.None? ==> forall v: nat :: v < 32 ==> Letter(v) != c
  {
    if 'A' <= c <= 'Z' then Some(c as int - 65)
    else if '2' <= c <= '7' then Some(c as int - 24)
    else None
  }

  ghost predicate InAlphabet(s: string) {
    forall i :: 0 <= i < |s| ==> Position(s[i]).Some?
  }

  // ------------------------------------------------------------ bit strings

  function Pow2(n: nat): (p: nat)
    ensures p > 0
  {
    if n == 0 then 1 else 2 * Pow2(n - 1)
  }

  /** The `n` low bits of `v`, most significant first. */
  function ToBits(v: nat, n: nat): (bits: seq<bool>)
    ensures |bits| == n
    decreases n
  {
    if n == 0 then [] else ToBits(v / 2, n - 1) + [v % 2 == 1]
  }

  function Value(bits: seq<bool>): nat {
    if bits == [] then 0
    else 2 * Value(bits[..|bits| - 1]) + if bits[|bits| - 1] then 1 else 0
  }

  lemma {:induction false} ValueBound(bits: seq<bool>)
    ensures Value(bits) < Pow2(|bits|)
  {
    if bits != [] {
      ValueBound(bits[..|bits| - 1]);
    }
  }

  lemma DoubleProduct(x: nat, p: nat)
    ensures x * (2 * p) == 2 * (x * p)
  {
  }

  lemma {:induction false} ValueOfConcat(a: seq<bool>, b: seq<bool>)
    ensures Value(a + b) == Value(a) * Pow2(|b|) + Value(b)
  {
    if b == [] {
      assert a + b == a;
    } else {
      var b' := b[..|b| - 1];
      assert (a + b)[..|a + b| - 1] == a + b';
      ValueOfConcat(a, b');
      DoubleProduct(Value(a), Pow2(|b'|));
    }
  }

  lemma {:induction false} ValueToBits(v: nat, n: nat)
    requires v < Pow2(n)
    ensures Value(ToBits(v, n)) == v
  {
    if n > 0 {
      ValueToBits(v / 2, n - 1);
      assert ToBits(v, n)[..n - 1] == ToBits(v / 2, n - 1);
    }
  }

  lemma {:induction false} ToBitsValue(bits: seq<bool>)
    ensures ToBits(Value(bits), |bits|) == bits
  {
    if bits != [] {
      ToBitsValue(bits[..|bits| - 1]);
    }
  }

  // ----------------------------------------------------- reference decoding

  /** The concatenated 5-bit values of the characters. */
  ghost function CharBits(s: string): (bits: seq<bool>)
    requires InAlphabet(s)
    ensures |bits| == 5 * |s|
  {
    if s == [] then []
    else CharBits(s[..|s| - 1]) + ToBits(Position(s[|s| - 1]).value, 5)
  }

  /** Byte `k` is bits `8k` to `8k + 7`; an incomplete last byte is dropped. */
  ghost function BitsToBytes(bits: seq<bool>): (out: seq<byte>)
    ensures |out| == |bits| / 8
  {
    seq(|bits| / 8, k requires 0 <= k < |bits| / 8 => ByteOfBits(bits[8 * k..8 * k + 8]))
  }

  ghost function ByteOfBits(bits: seq<bool>): byte
    requires |bits| == 8
  {
    ValueBound(bits);
    assert Pow2(8) == 0x100;
    Value(bits)
  }

  datatype SeedError = InvalidCharacter | SeedEmpty | SeedTooLong

  ghost function Decoded(s: string): Result<seq<byte>, SeedError> {
    if InAlphabet(s) then Ok(BitsToBytes(CharBits(s))) else Err(InvalidCharacter)
  }

  // ------------------------------------------------------ the shift register

  /** `(buffer << 5) | val` on 64 bits. */
  function Shift5(buffer: u64, val: nat): u64
    requires val < 32
  {
    buffer % 0x0800_0000_0000_0000 * 32 + val
  }

  /** `buffer >> bits`. */
  function ShiftRight(buffer: u64, bits: nat): int {
    buffer / Pow2(bits)
  }

  lemma SmallPowers()
    ensures Pow2(0) == 1 && Pow2(1) == 2 && Pow2(2) == 4 && Pow2(3) == 8 && Pow2(4) == 16
    ensures Pow2(5) == 32 && Pow2(6) == 64 && Pow2(7) == 128 && Pow2(8) == 256
    ensures Pow2(9) == 512 && Pow2(10) == 1024 && Pow2(11) == 2048 && Pow2(12) == 4096
  {
    assert Pow2(4) == 16;
    assert Pow2(8) == 256;
  }

  lemma MultipleIsFar(m: int, d: int)
    requires m > 0
    ensures d > 0 ==> m * d >= m
    ensures d < 0 ==> m * d <= -m
  {
  }

  lemma DivModUnique(x: int, m: int, q: int, r: int)
    requires 0 <= r < m && x == m * q + r
    ensures x / m == q && x % m == r
  {
    var d := q - x / m;
    assert m * d == x % m - r;
    MultipleIsFar(m, d);
  }

  /** The modulus of five lost bits is a multiple of every small power of two. */
  lemma TopIsMultiple(n: nat) returns (k: nat)
    requires n < 8
    ensures Pow2(n) * k == 0x0800_0000_0000_0000
  {
    SmallPowers();
    k := if n == 0 then 0x0800_0000_0000_0000
         else if n == 1 then 0x0400_0000_0000_0000
         else if n == 2 then 0x0200_0000_0000_0000
         else if n == 3 then 0x0100_0000_0000_0000
         else if n == 4 then 0x0080_0000_0000_0000
         else if n == 5 then 0x0040_0000_0000_0000
         else if n == 6 then 0x0020_0000_0000_0000
         else 0x0010_0000_0000_0000;
  }

  lemma PowPlus5(n: nat)
    ensures Pow2(n + 5) == Pow2(n) * 32
  {
    assert Pow2(n + 1) == 2 * Pow2(n) && Pow2(n + 3) == 2 * Pow2(n + 2);
  }

  lemma RemainderOfRemainder(x: nat, m: nat, k: nat, big: nat)
    requires m > 0 && m * k == big && big > 0
    ensures x % big % m == x % m
  {
    var top, low := x / big, x % big;
    assert x == big * top + low;
    assert big * top == m * (k * top);
    assert low == m * (low / m) + low % m;
    assert m * (k * top) + m * (low / m) == m * (k * top + low / m);
    DivModUnique(x, m, k * top + low / m, low % m);
  }

  lemma ShiftInMod(low: nat, m: nat, val: nat)
    requires m > 0 && val < 32
    ensures (low * 32 + val) % (m * 32) == low % m * 32 + val
  {
    var q, l := low / m, low % m;
    assert low == m * q + l;
    assert low * 32 == m * 32 * q + l * 32;
    DivModUnique(low * 32 + val, m * 32, q, l * 32 + val);
  }

  lemma ShiftedRemainder(buffer: u64, n: nat, val: nat)
    requires n < 8 && val < 32
    ensures Shift5(buffer, val) % Pow2(n + 5) == buffer % Pow2(n) * 32 + val
  {
    hide Pow2;
    var k := TopIsMultiple(n);
    RemainderOfRemainder(buffer, Pow2(n), k, 0x0800_0000_0000_0000);
    ShiftInMod(buffer % 0x0800_0000_0000_0000, Pow2(n), val);
    PowPlus5(n);
  }

  /** Whatever has fallen off the top, the low bits are those of the pending bit string. */
  lemma ShiftKeepsPending(buffer: u64, pending: seq<bool>, val: nat)
    requires |pending| < 8 && val < 32
    requires buffer % Pow2(|pending|) == Value(pending)
    ensures Shift5(buffer, val) % Pow2(|pending| + 5) == Value(pending + ToBits(val, 5))
  {
    hide Shift5;
    SmallPowers();
    ValueToBits(val, 5);
    ValueOfConcat(pending, ToBits(val, 5));
    ShiftedRemainder(buffer, |pending|, val);
  }

  lemma SplitRemainder(x: nat, m: nat, hi: nat, lo: nat)
    requires m > 0 && hi < 256 && lo < m && x % (256 * m) == hi * m + lo
    ensures x / m % 256 == hi && x % m == lo
  {
    var w := 256 * m;
    var q := x / w;
    assert x == w * q + (hi * m + lo);
    assert w * q == m * (256 * q);
    assert m * (256 * q) + hi * m == m * (256 * q + hi);
    DivModUnique(x, m, 256 * q + hi, lo);
  }

  lemma PowPlus8(n: nat)
    ensures Pow2(n + 8) == 256 * Pow2(n)
  {
    PowPlus5(n);
    assert Pow2(n + 6) == 2 * Pow2(n + 5) && Pow2(n + 8) == 2 * Pow2(n + 7);
  }

  /** The byte pushed is the first eight pending bits; the others stay pending. */
  lemma TakeByte(buffer: u64, pending: seq<bool>)
    requires 8 <= |pending| < 13
    requires buffer % Pow2(|pending|) == Value(pending)
    ensures ShiftRight(buffer, |pending| - 8) % 0x100 == ByteOfBits(pending[..8])
    ensures buffer % Pow2(|pending| - 8) == Value(pending[8..])
  {
    hide Value, Pow2;
    var (hi, lo) := (Value(pending[..8]), Value(pending[8..]));
    assert pending == pending[..8] + pending[8..];
    ValueOfConcat(pending[..8], pending[8..]);
    ValueBound(pending[..8]);
    ValueBound(pending[8..]);
    SmallPowers();
    PowPlus8(|pending| - 8);
    SplitRemainder(buffer, Pow2(|pending| - 8), hi, lo);
    assert ByteOfBits(pending[..8]) == hi;
  }

  lemma CharBitsExtend(s: string, i: nat)
    requires i < |s| && InAlphabet(s[..i]) && Position(s[i]).Some?
    ensures InAlphabet(s[..i + 1])
    ensures CharBits(s[..i + 1]) == CharBits(s[..i]) + ToBits(Position(s[i]).value, 5)
  {
    assert s[..i + 1][..i] == s[..i];
  }

  lemma BitsToBytesExtend(bits: seq<bool>, more: seq<bool>)
    requires |more| == 5
    ensures |bits| % 8 < 3 ==> BitsToBytes(bits + more) == BitsToBytes(bits)
    ensures |bits| % 8 >= 3 ==>
      BitsToBytes(bits + more) == BitsToBytes(bits) + [ByteOfBits((bits + more)[|bits| / 8 * 8..|bits| / 8 * 8 + 8])]
  {
    hide ByteOfBits;
    var n := |bits| / 8;
    assert forall k :: 0 <= k < n ==> (bits + more)[8 * k..8 * k + 8] == bits[8 * k..8 * k + 8];
  }

  lemma NothingRead()
    ensures CharBits([]) == [] && BitsToBytes([]) == [] && Value([]) == 0 && Pow2(0) == 1
  {
  }

  method Base32Decode(s: string) returns (r: Result<seq<byte>, SeedError>)
    ensures r == Decoded(s)
  {
    hide Position, CharBits, BitsToBytes, ToBits, Value, Shift5, ShiftRight, Pow2, ByteOfBits;
    var buffer: u64 := 0;
    var bits: nat := 0;
    var out: seq<byte> := [];
    NothingRead();
    for i := 0 to |s|
      invariant InAlphabet(s[..i])
      invariant out == BitsToBytes(CharBits(s[..i]))
      invariant bits == 5 * i % 8
      invariant buffer % Pow2(bits) == Value(CharBits(s[..i])[8 * |out|..])
    {
      var p := Position(s[i]);
      if p.None? {
        return Err(InvalidCharacter);
      }
      ghost var before := CharBits(s[..i]);
      ghost var more := ToBits(p.value, 5);
      ghost var pending := before[8 * |out|..];
      CharBitsExtend(s, i);
      BitsToBytesExtend(before, more);
      ShiftKeepsPending(buffer, pending, p.value);
      assert (before + more)[8 * |out|..] == pending + more;

      buffer := Shift5(buffer, p.value);
      bits := bits + 5;
      if bits >= 8 {
        TakeByte(buffer, pending + more);
        assert (pending + more)[..8] == (before + more)[8 * |out|..8 * |out| + 8];
        assert (pending + more)[8..] == (before + more)[8 * |out| + 8..];
        bits := bits - 8;
        out := out + [ShiftRight(buffer, bits) % 0x100];
      }
    }
    assert s[..|s|] == s;
    r := Ok(out);
  }

  // ------------------------------------------------------ reference encoding

  ghost function ByteBits(b: seq<byte>): (bits: seq<bool>)
    ensures |bits| == 8 * |b|
  {
    if b == [] then [] else ByteBits(b[..|b| - 1]) + ToBits(b[|b| - 1], 8)
  }

  /** The characters of a bit string whose length is a multiple of five. */
  ghost function BitsToChars(bits: seq<bool>): (s: string)
    requires |bits| % 5 == 0
    ensures |s| == |bits| / 5
  {
    if bits == [] then []
    else
      var n := |bits| - 5;
      ValueBound(bits[n..]);
      assert Pow2(5) == 32;
      BitsToChars(bits[..n]) + [Letter(Value(bits[n..]))]
  }

  /** The zero bits that fill up the last character. */
  function Fill(n: nat): (pad: nat)
    ensures pad < 5 && (n + pad) % 5 == 0
  {
    if n % 5 == 0 then 0 else 5 - n % 5
  }

  /** Section 6 of RFC 4648, without the trailing padding characters. */
  ghost function Encode(b: seq<byte>): string {
    BitsToChars(Filled(ByteBits(b)))
  }

  /** The bits with zero bits after them up to a multiple of five. */
  ghost function Filled(bits: seq<bool>): (all: seq<bool>)
    ensures |all| % 5 == 0 && bits <= all
  {
    bits + seq(Fill(|bits|), _ => false)
  }

  lemma {:induction false} CharBitsOfBitsToChars(bits: seq<bool>)
    requires |bits| % 5 == 0
    ensures InAlphabet(BitsToChars(bits)) && CharBits(BitsToChars(bits)) == bits
  {
    hide Letter, Position, ToBits, Value, Pow2;
    if bits != [] {
      var (front, last) := (bits[..|bits| - 5], bits[|bits| - 5..]);
      CharBitsOfBitsToChars(front);
      ValueBound(last);
      SmallPowers();
      PositionOfAlphabet(Value(last));
      ToBitsValue(last);
      var s := BitsToChars(bits);
      assert s == BitsToChars(front) + [Letter(Value(last))];
      assert s[..|s| - 1] == BitsToChars(front);
    }
  }

  lemma PositionOfAlphabet(v: nat)
    requires v < 32
    ensures Position(Letter(v)) == Some(v)
  {
  }

  lemma {:induction false} ByteBitsAt(b: seq<byte>, k: nat)
    requires k < |b|
    ensures ByteBits(b)[8 * k..8 * k + 8] == ToBits(b[k], 8)
  {
    hide ToBits;
    var n := |b| - 1;
    var (front, last) := (ByteBits(b[..n]), ToBits(b[n], 8));
    assert ByteBits(b) == front + last;
    if k < n {
      ByteBitsAt(b[..n], k);
      assert (front + last)[8 * k..8 * k + 8] == front[8 * k..8 * k + 8];
    } else {
      assert (front + last)[8 * k..8 * k + 8] == last;
    }
  }

  /** The decoder inverts the encoder on every byte string. */
  lemma {:induction false} EncodeDecode(b: seq<byte>)
    ensures Decoded(Encode(b)) == Ok(b)
  {
    hide ToBits, Value, ByteBits, BitsToChars, CharBits, BitsToBytes, InAlphabet;
    var bits := ByteBits(b);
    var padded := bits + seq(Fill(|bits|), _ => false);
    CharBitsOfBitsToChars(padded);
    forall k | 0 <= k < |b|
      ensures BitsToBytes(padded)[k] == b[k]
    {
      PaddedByte(b, padded, k);
    }
    assert BitsToBytes(padded) == b;
  }

  lemma PaddedByte(b: seq<byte>, padded: seq<bool>, k: nat)
    requires k < |b| && ByteBits(b) <= padded && |padded| < 8 * |b| + 8
    ensures BitsToBytes(padded)[k] == b[k]
  {
    hide ToBits, Value, ByteBits;
    ByteBitsAt(b, k);
    assert padded[8 * k..8 * k + 8] == ByteBits(b)[8 * k..8 * k + 8];
    SmallPowers();
    ValueToBits(b[k], 8);
  }

  // ----------------------------------------------------------- typed seeds

  function WithoutWhitespace(s: string): string {
    if s == [] then []
    else (if IsWhitespace(s[0]) then [] else [s[0]]) + WithoutWhitespace(s[1..])
  }

  function TrimEndEquals(s: string): string {
    if s != [] && s[|s| - 1] == '=' then TrimEndEquals(s[..|s| - 1]) else s
  }

  function Clean(s: string): string {
    Uppercase(TrimEndEquals(WithoutWhitespace(s)))
  }

  function ValidateSeedLen(n: nat): (r: Result<(), SeedError>)
    ensures r.Ok? <==> 1 <= n <= 64
  {
    if 1 <= n <= 64 then Ok(()) else if n == 0 then Err(SeedEmpty) else Err(SeedTooLong)
  }

  ghost function SeedOf(s: string): Result<seq<byte>, SeedError> {
    match Decoded(Clean(s))
    case Err(e) => Err(e)
    case Ok(b) => if 1 <= |b| <= 64 then Ok(b) else Err(if b == [] then SeedEmpty else SeedTooLong)
  }

  method DecodeBase32Seed(s: string) returns (r: Result<seq<byte>, SeedError>)
    ensures r == SeedOf(s)
  {
    var upper := Clean(s);
    var decoded :- Base32Decode(upper);
    var _ :- ValidateSeedLen(|decoded|);
    r := Ok(decoded);
  }

  /** A typed seed is accepted exactly when its 2 to 103 significant characters are all in the alphabet. */
  lemma AcceptsIff(s: string)
    ensures SeedOf(s).Ok? <==> InAlphabet(Clean(s)) && 2 <= |Clean(s)| <= 103
  {
    if InAlphabet(Clean(s)) {
      assert |BitsToBytes(CharBits(Clean(s)))| == 5 * |Clean(s)| / 8;
    }
  }

  lemma {:induction false} WithoutWhitespaceConcat(a: string, b: string)
    ensures WithoutWhitespace(a + b) == WithoutWhitespace(a) + WithoutWhitespace(b)
  {
    if a == [] {
      assert a + b == b;
    } else {
      assert (a + b)[1..] == a[1..] + b;
      WithoutWhitespaceConcat(a[1..], b);
    }
  }

  lemma {:induction false} OnlyWhitespace(w: string)
    requires forall i :: 0 <= i < |w| ==> IsWhitespace(w[i])
    ensures WithoutWhitespace(w) == []
  {
    if w != [] {
      OnlyWhitespace(w[1..]);
    }
  }

  /** White space inserted anywhere does not change the seed. */
  lemma IgnoresWhitespace(a: string, w: string, b: string)
    requires forall i :: 0 <= i < |w| ==> IsWhitespace(w[i])
    ensures SeedOf(a + w + b) == SeedOf(a + b)
  {
    OnlyWhitespace(w);
    WithoutWhitespaceConcat(a + w, b);
    WithoutWhitespaceConcat(a, w);
    WithoutWhitespaceConcat(a, b);
    assert WithoutWhitespace(a) + [] == WithoutWhitespace(a);
  }

  lemma {:induction false} CleanCommutesWithCase(s: string)
    ensures WithoutWhitespace(Uppercase(s)) == Uppercase(WithoutWhitespace(s))
  {
    if s != [] {
      assert Uppercase(s)[1..] == Uppercase(s[1..]);
      CleanCommutesWithCase(s[1..]);
      var head := if IsWhitespace(s[0]) then [] else [s[0]];
      assert Uppercase(head + WithoutWhitespace(s[1..])) == Uppercase(head) + Uppercase(WithoutWhitespace(s[1..]));
    }
  }

  lemma {:induction false} TrimCommutesWithCase(s: string)
    ensures TrimEndEquals(Uppercase(s)) == Uppercase(TrimEndEquals(s))
  {
    if s != [] && s[|s| - 1] == '=' {
      TrimCommutesWithCase(s[..|s| - 1]);
      assert Uppercase(s)[..|s| - 1] == Uppercase(s[..|s| - 1]);
    }
  }

  /** The case of letters does not change the seed. */
  lemma IgnoresCase(s: string, t: string)
    requires Uppercase(s) == Uppercase(t)
    ensures SeedOf(s) == SeedOf(t)
  {
    CleanCommutesWithCase(s);
    CleanCommutesWithCase(t);
    TrimCommutesWithCase(WithoutWhitespace(s));
    TrimCommutesWithCase(WithoutWhitespace(t));
  }

  lemma TrailingEquals(s: string)
    ensures Clean(s + ['=']) == Clean(s)
  {
    hide Uppercase;
    WithoutWhitespaceConcat(s, ['=']);
    var w := WithoutWhitespace(s);
    assert WithoutWhitespace(s + ['=']) == w + ['='];
    assert (w + ['='])[..|w|] == w;
  }

  /** Any number of trailing padding characters does not change the seed. */
  lemma {:induction false} IgnoresPadding(s: string, n: nat)
    ensures SeedOf(s + seq(n, _ => '=')) == SeedOf(s)
  {
    hide Clean, Decoded;
    if n == 0 {
      assert s + seq(n, _ => '=') == s;
    } else {
      IgnoresPadding(s, n - 1);
      TrailingEquals(s + seq(n - 1, _ => '='));
      assert s + seq(n, _ => '=') == (s + seq(n - 1, _ => '=')) + ['='];
    }
  }

  /** Whatever the user's spelling of an encoded seed of 1 to 64 bytes, the seed comes back. */
  lemma TypedSeedDecodes(seed: seq<byte>, typed: string)
    requires 1 <= |seed| <= 64 && Clean(typed) == Encode(seed)
    ensures SeedOf(typed) == Ok(seed)
  {
    EncodeDecode(seed);
  }

  lemma LetterIsClean(c: char)
    requires Position(c).Some?
    ensures !IsWhitespace(c) && c != '=' && UpperChar(c) == c
  {
  }

  /** Cleaning leaves a text of the alphabet alone ... */
  lemma AlphabetIsClean(s: string)
    requires InAlphabet(s)
    ensures WithoutWhitespace(s) == s && Uppercase(s) == s && '=' !in s
  {
    hide Position, IsWhitespace, UpperChar, WithoutWhitespace;
    forall i | 0 <= i < |s|
      ensures !IsWhitespace(s[i]) && s[i] != '=' && UpperChar(s[i]) == s[i]
    {
      LetterIsClean(s[i]);
    }
    NothingDropped(s);
    assert Uppercase(s) == s;
  }

  lemma {:induction false} NothingDropped(s: string)
    requires forall i :: 0 <= i < |s| ==> !IsWhitespace(s[i])
    ensures WithoutWhitespace(s) == s
  {
    hide IsWhitespace;
    if s != [] {
      NothingDropped(s[1..]);
      assert s == [s[0]] + s[1..];
    }
  }

  /** ... and takes off the padding characters after it. */
  lemma {:induction false} PaddingTrimmed(s: string, n: nat)
    requires '=' !in s
    ensures TrimEndEquals(s + seq(n, _ => '=')) == s
  {
    if n > 0 {
      PaddingTrimmed(s, n - 1);
      assert (s + seq(n, _ => '='))[..|s| + n - 1] == s + seq(n - 1, _ => '=');
    } else {
      assert s + seq(n, _ => '=') == s;
    }
  }

  lemma EncodingInAlphabet(b: seq<byte>)
    ensures InAlphabet(Encode(b))
  {
    CharBitsOfBitsToChars(Filled(ByteBits(b)));
  }

  /**
   A text that is the encoding of a seed of 1 to 64 bytes but for white space anywhere, the case
   of its letters and any padding at the end is cleaned to that encoding, and gives the seed.
   */
  lemma SpellingDecodes(seed: seq<byte>, typed: string, n: nat)
    requires 1 <= |seed| <= 64 && Uppercase(WithoutWhitespace(typed)) == Encode(seed) + seq(n, _ => '=')
    ensures Clean(typed) == Encode(seed) && SeedOf(typed) == Ok(seed)
  {
    hide Encode, Decoded;
    EncodingInAlphabet(seed);
    AlphabetIsClean(Encode(seed));
    PaddingTrimmed(Encode(seed), n);
    TrimCommutesWithCase(WithoutWhitespace(typed));
    TypedSeedDecodes(seed, typed);
  }

  /** The encoding itself is such a text. */
  lemma EncodingDecodes(seed: seq<byte>)
    requires 1 <= |seed| <= 64
    ensures Clean(Encode(seed)) == Encode(seed) && SeedOf(Encode(seed)) == Ok(seed)
  {
    hide Encode, Decoded, Clean;
    EncodingInAlphabet(seed);
    AlphabetIsClean(Encode(seed));
    assert Encode(seed) + seq(0, _ => '=') == Encode(seed);
    SpellingDecodes(seed, Encode(seed), 0);
  }

  // ------------------------------------------------------- over what is typed

  /** The alphabet, in either case. */
  predicate Typable(c: char) {
    'A' <= c <= 'Z' || 'a' <= c <= 'z' || '2' <= c <= '7'
  }

  /** Neither white space nor padding with nothing but white space and padding after it. */
  predicate Significant(s: string, i: nat) {
    i < |s| && !IsWhitespace(s[i]) &&
    (s[i] != '=' || exists j :: i < j < |s| && !IsWhitespace(s[j]) && s[j] != '=')
  }

  /** How many of the first `n` characters are significant. */
  function SignificantIn(s: string, n: nat): nat {
    if n == 0 then 0 else SignificantIn(s, n - 1) + if Significant(s, n - 1) then 1 else 0
  }

  lemma AlphabetLetters(v: nat)
    requires v < 32
    ensures Letter(v) == "ABCDEFGHIJKLMNOPQRSTUVWXYZ234567"[v]
  {
  }

  lemma TypableIff(c: char)
    ensures Typable(c) <==> Position(UpperChar(c)).Some?
  {
  }

  /** Only white space and padding. */
  predicate OnlyFiller(s: string) {
    forall i :: 0 <= i < |s| ==> IsWhitespace(s[i]) || s[i] == '='
  }

  /** Where the filler at the end begins. */
  function FillerStart(s: string): (m: nat)
    ensures m <= |s| && OnlyFiller(s[m..])
    ensures m > 0 ==> !IsWhitespace(s[m - 1]) && s[m - 1] != '='
  {
    if s != [] && (IsWhitespace(s[|s| - 1]) || s[|s| - 1] == '=') then
      var m := FillerStart(s[..|s| - 1]);
      assert s[..|s| - 1][m..] + [s[|s| - 1]] == s[m..];
      m
    else |s|
  }

  lemma SignificantIff(s: string, i: nat)
    requires i < |s|
    ensures Significant(s, i) <==> i < FillerStart(s) && !IsWhitespace(s[i])
  {
    hide IsWhitespace;
    var m := FillerStart(s);
    forall j | m <= j < |s|
      ensures IsWhitespace(s[j]) || s[j] == '='
    {
      assert s[m..][j - m] == s[j];
    }
  }

  predicate OnlyPadding(s: string) {
    forall i :: 0 <= i < |s| ==> s[i] == '='
  }

  lemma {:induction false} FillerIsPadding(s: string)
    requires OnlyFiller(s)
    ensures OnlyPadding(WithoutWhitespace(s))
  {
    hide IsWhitespace;
    if s != [] {
      FillerIsPadding(s[1..]);
    }
  }

  lemma {:induction false} TrimOff(w: string, pad: string)
    requires (w == [] || w[|w| - 1] != '=') && OnlyPadding(pad)
    ensures TrimEndEquals(w + pad) == w
  {
    if pad == [] {
      assert w + pad == w;
    } else {
      var n := |pad| - 1;
      assert (w + pad)[..|w| + n] == w + pad[..n];
      TrimOff(w, pad[..n]);
    }
  }

  lemma {:induction false} KeepsEnd(s: string)
    requires s != [] && !IsWhitespace(s[|s| - 1])
    ensures WithoutWhitespace(s) != [] && WithoutWhitespace(s)[|WithoutWhitespace(s)| - 1] == s[|s| - 1]
  {
    hide IsWhitespace;
    if |s| > 1 {
      KeepsEnd(s[1..]);
    } else {
      assert s[1..] == [];
    }
  }

  lemma {:induction false} KeptCharacters(s: string, c: char)
    ensures c in WithoutWhitespace(s) <==> c in s && !IsWhitespace(c)
  {
    hide IsWhitespace;
    if s != [] {
      KeptCharacters(s[1..], c);
      assert s == [s[0]] + s[1..];
    }
  }

  /** Cleaning keeps the characters before the filler that are no white space. */
  lemma CleanIs(s: string)
    ensures Clean(s) == Uppercase(WithoutWhitespace(s[..FillerStart(s)]))
  {
    hide IsWhitespace, Uppercase;
    var m := FillerStart(s);
    WithoutWhitespaceConcat(s[..m], s[m..]);
    assert s == s[..m] + s[m..];
    FillerIsPadding(s[m..]);
    if m > 0 {
      KeepsEnd(s[..m]);
    }
    TrimOff(WithoutWhitespace(s[..m]), WithoutWhitespace(s[m..]));
  }

  lemma {:induction false} CountIs(s: string, n: nat)
    requires n <= |s|
    ensures SignificantIn(s, n) == |WithoutWhitespace(s[..if n < FillerStart(s) then n else FillerStart(s)])|
    decreases n
  {
    hide IsWhitespace, Significant;
    if n > 0 {
      CountIs(s, n - 1);
      SignificantIff(s, n - 1);
      if n <= FillerStart(s) {
        assert s[..n] == s[..n - 1] + [s[n - 1]];
        WithoutWhitespaceConcat(s[..n - 1], [s[n - 1]]);
        assert [s[n - 1]][1..] == [] && WithoutWhitespace([]) == [];
      }
    }
  }

  lemma LettersIff(s: string)
    ensures InAlphabet(Clean(s)) <==> forall i: nat :: Significant(s, i) ==> Typable(s[i])
  {
    hide IsWhitespace, Position, UpperChar, Typable, Significant, Clean;
    var m := FillerStart(s);
    var w := WithoutWhitespace(s[..m]);
    CleanIs(s);
    forall k | 0 <= k < |w|
      ensures exists i: nat :: i < |s| && Significant(s, i) && s[i] == w[k]
      ensures Position(UpperChar(w[k])).Some? <==> Typable(w[k])
    {
      KeptCharacters(s[..m], w[k]);
      var i :| 0 <= i < m && s[..m][i] == w[k];
      SignificantIff(s, i);
      assert Significant(s, i) && s[i] == w[k];
      TypableIff(w[k]);
    }
    if InAlphabet(Clean(s)) {
      forall i: nat | Significant(s, i)
        ensures i < |s| && Typable(s[i])
      {
        SignificantBound(s, i);
        SignificantIff(s, i);
        assert s[..m][i] == s[i];
        KeptCharacters(s[..m], s[i]);
        var k :| 0 <= k < |w| && w[k] == s[i];
        assert Position(Clean(s)[k]).Some?;
      }
    }
  }

  lemma SignificantBound(s: string, i: nat)
    requires Significant(s, i)
    ensures i < |s|
  {
  }

  /**
   Acceptance over the typed text itself: every significant character is a letter or a digit
   from 2 to 7, and they number 2 to 103; else the first of these errors is given.
   */
  lemma TypedAcceptsIff(s: string)
    ensures SeedOf(s) == Err(InvalidCharacter) <==> exists i: nat :: Significant(s, i) && !Typable(s[i])
    ensures var n := SignificantIn(s, |s|);
            (forall i: nat :: Significant(s, i) ==> Typable(s[i])) ==>
              (SeedOf(s).Ok? <==> 2 <= n <= 103) &&
              (SeedOf(s) == Err(SeedEmpty) <==> n < 2) && (SeedOf(s) == Err(SeedTooLong) <==> n > 103)
  {
    hide Clean, Significant, Typable, CharBits, BitsToBytes;
    LettersIff(s);
    CountIs(s, |s|);
    CleanIs(s);
    assert s[..FillerStart(s)] == s[..if |s| < FillerStart(s) then |s| else FillerStart(s)];
    if InAlphabet(Clean(s)) {
      DecodedSize(Clean(s));
    }
  }

  lemma DecodedSize(s: string)
    requires InAlphabet(s)
    ensures Decoded(s).Ok? && |Decoded(s).value| == 5 * |s| / 8
  {
  }

  /** The error of each length that is refused. */
  lemma SeedLengths(n: nat)
    ensures ValidateSeedLen(n) == Err(SeedEmpty) <==> n == 0
    ensures ValidateSeedLen(n) == Err(SeedTooLong) <==> n > 64
  {
  }
}
