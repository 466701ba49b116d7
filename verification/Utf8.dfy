/**
 UTF-8 (RFC 3629) and the lossy decoding of `String::from_utf8_lossy`: every maximal part of
 a sequence that cannot be completed becomes one U+FFFD.
 */
module Utf8 {
  import opened Bytes

  const REPLACEMENT: char := '\U{FFFD}'

  function EncodeChar(c: char): (s: seq<byte>)
    ensures 1 <= |s| <= 4
  {
    var n := c as int;
    if n < 0x80 then [n]
    else if n < 0x800 then [0xC0 + n / 0x40, 0x80 + n % 0x40]
    else if n < 0x1_0000 then [0xE0 + n / 0x40 / 0x40, 0x80 + n / 0x40 % 0x40, 0x80 + n % 0x40]
    else [0xF0 + n / 0x40 / 0x40 / 0x40, 0x80 + n / 0x40 / 0x40 % 0x40, 0x80 + n / 0x40 % 0x40, 0x80 + n % 0x40]
  }

  function Encode(s: string): seq<byte> {
    if s == [] then [] else EncodeChar(s[0]) + Encode(s[1..])
  }

  predicate IsTail(b: byte) {
    0x80 <= b < 0xC0
  }

  /** The length that a first byte announces, or 0 if it starts nothing. */
  function Width(first: byte): nat {
    if first < 0x80 then 1
    else if 0xC2 <= first < 0xE0 then 2
    else if 0xE0 <= first < 0xF0 then 3
    else if 0xF0 <= first < 0xF5 then 4
    else 0
  }

  /** The second byte rules out overlong forms, surrogates and numbers past U+10FFFF. */
  predicate SecondFits(first: byte, second: byte) {
    IsTail(second) &&
    match first
    case 0xE0 => 0xA0 <= second
    case 0xED => second < 0xA0
    case 0xF0 => 0x90 <= second
    case 0xF4 => second < 0x90
    case _ => true
  }

  /** The bits of a byte above its marker. */
  function Bits(b: byte, marker: int): int {
    b - marker
  }

  /** The first character of some bytes and how many bytes it takes. */
  function First(b: seq<byte>): (r: (nat, char))
    requires b != []
    ensures 1 <= r.0 <= |b|
  {
    var w := Width(b[0]);
    if w == 0 then (1, REPLACEMENT)
    else if w == 1 then (1, b[0] as char)
    else if |b| < 2 || !SecondFits(b[0], b[1]) then (1, REPLACEMENT)
    else if w == 2 then (2, (0x40 * Bits(b[0], 0xC0) + Bits(b[1], 0x80)) as char)
    else if |b| < 3 || !IsTail(b[2]) then (2, REPLACEMENT)
    else if w == 3 then (3, (0x1000 * Bits(b[0], 0xE0) + 0x40 * Bits(b[1], 0x80) + Bits(b[2], 0x80)) as char)
    else if |b| < 4 || !IsTail(b[3]) then (3, REPLACEMENT)
    else
      (4, (0x4_0000 * Bits(b[0], 0xF0) + 0x1000 * Bits(b[1], 0x80) + 0x40 * Bits(b[2], 0x80) + Bits(b[3], 0x80)) as char)
  }

  function Lossy(b: seq<byte>): string {
    if b == [] then [] else [First(b).1] + Lossy(b[First(b).0..])
  }

  lemma FirstOfOne(c: char, rest: seq<byte>)
    requires c < '\U{80}'
    ensures First([c as int] + rest) == (1, c)
  {
  }

  lemma FirstOfTwo(c: char, p: int, q: int, rest: seq<byte>)
    requires 2 <= p < 0x20 && 0 <= q < 0x40 && c as int == 0x40 * p + q
    ensures First([0xC0 + p, 0x80 + q] + rest) == (2, c)
  {
    var b: seq<byte> := [0xC0 + p, 0x80 + q] + rest;
    assert b[0] == 0xC0 + p && b[1] == 0x80 + q;
  }

  lemma FirstOfThree(c: char, p: int, q: int, r: int, rest: seq<byte>)
    requires 0 <= p < 0x10 && 0 <= q < 0x40 && 0 <= r < 0x40 && c as int == 0x1000 * p + 0x40 * q + r
    requires 0x800 <= c as int
    ensures First([0xE0 + p, 0x80 + q, 0x80 + r] + rest) == (3, c)
  {
    var b: seq<byte> := [0xE0 + p, 0x80 + q, 0x80 + r] + rest;
    assert b[0] == 0xE0 + p && b[1] == 0x80 + q && b[2] == 0x80 + r;
  }

  lemma FirstOfFour(c: char, p: int, q: int, r: int, s: int, rest: seq<byte>)
    requires 0 <= p < 5 && 0 <= q < 0x40 && 0 <= r < 0x40 && 0 <= s < 0x40
    requires c as int == 0x4_0000 * p + 0x1000 * q + 0x40 * r + s && 0x1_0000 <= c as int
    ensures First([0xF0 + p, 0x80 + q, 0x80 + r, 0x80 + s] + rest) == (4, c)
  {
    var b: seq<byte> := [0xF0 + p, 0x80 + q, 0x80 + r, 0x80 + s] + rest;
    assert b[0] == 0xF0 + p && b[1] == 0x80 + q && b[2] == 0x80 + r && b[3] == 0x80 + s;
  }

  /** A character is read off the front of its own encoding. */
  lemma FirstOfEncoded(c: char, rest: seq<byte>)
    ensures First(EncodeChar(c) + rest) == (|EncodeChar(c)|, c)
  {
    hide First;
    var n := c as int;
    if n < 0x80 {
      FirstOfOne(c, rest);
    } else if n < 0x800 {
      FirstOfTwo(c, n / 0x40, n % 0x40, rest);
    } else if n < 0x1_0000 {
      FirstOfThree(c, n / 0x40 / 0x40, n / 0x40 % 0x40, n % 0x40, rest);
    } else {
      FirstOfFour(c, n / 0x40 / 0x40 / 0x40, n / 0x40 / 0x40 % 0x40, n / 0x40 % 0x40, n % 0x40, rest);
    }
  }

  /** What is encoded is read back, whatever follows it. */
  lemma {:induction false} LossyEncoded(s: string, rest: seq<byte>)
    ensures Lossy(Encode(s) + rest) == s + Lossy(rest)
  {
    hide EncodeChar, First, Lossy;
    if s == [] {
      assert Encode(s) + rest == rest;
    } else {
      var more := Encode(s[1..]) + rest;
      assert Encode(s) + rest == EncodeChar(s[0]) + more;
      LossyOne(s[0], more);
      LossyEncoded(s[1..], rest);
      assert [s[0]] + (s[1..] + Lossy(rest)) == s + Lossy(rest);
    }
  }

  lemma LossyOne(c: char, more: seq<byte>)
    ensures Lossy(EncodeChar(c) + more) == [c] + Lossy(more)
  {
    hide EncodeChar, First;
    FirstOfEncoded(c, more);
    assert (EncodeChar(c) + more)[|EncodeChar(c)|..] == more;
  }

  lemma {:induction false} EncodeConcat(s: string, t: string)
    ensures Encode(s + t) == Encode(s) + Encode(t)
  {
    hide EncodeChar;
    if s == [] {
      assert s + t == t;
    } else {
      assert (s + t)[1..] == s[1..] + t;
      EncodeConcat(s[1..], t);
    }
  }

  /** Exactly the encoded texts survive lossy decoding. */
  lemma LossyIff(b: seq<byte>)
    ensures Encode(Lossy(b)) == b <==> exists s :: b == Encode(s)
  {
    if s :| b == Encode(s) {
      LossyEncoded(s, []);
      assert b + [] == b && s + Lossy([]) == s;
    }
  }

  /** ASCII bytes as text. */
  function AsText(b: seq<byte>): (s: string)
    requires IsAscii(b)
    ensures |s| == |b|
  {
    seq(|b|, i requires 0 <= i < |b| => b[i] as char)
  }

  lemma {:induction false} EncodeAscii(b: seq<byte>)
    requires IsAscii(b)
    ensures Encode(AsText(b)) == b
  {
    if b != [] {
      EncodeAscii(b[1..]);
      assert AsText(b)[1..] == AsText(b[1..]);
    }
  }

  /** An ASCII byte in an encoded text is a character of the text. */
  lemma {:induction false} AsciiInEncoded(s: string, b: byte)
    requires b < 0x80
    ensures b in Encode(s) ==> b as char in s
  {
    if s != [] {
      AsciiInEncoded(s[1..], b);
      assert b in EncodeChar(s[0]) ==> b == s[0] as int;
    }
  }

  // ---------------------------------------------- bytes that are no text

  /** The bytes begin the encoding of some character. */
  ghost predicate Begins(b: seq<byte>) {
    exists c :: b <= EncodeChar(c)
  }

  /** The first two bytes of an encoding fit together, and the others are tails. */
  lemma EncodingFits(c: char)
    ensures var e := EncodeChar(c);
            Width(e[0]) == |e| && (|e| > 1 ==> SecondFits(e[0], e[1])) && (|e| > 2 ==> IsTail(e[2])) && (|e| > 3 ==> IsTail(e[3]))
  {
    var n := c as int;
    if n >= 0x1_0000 {
      assert n / 0x40 / 0x40 / 0x40 < 5;
    }
  }

  lemma TwoBegin(b: seq<byte>)
    requires |b| == 2 && Width(b[0]) >= 3 && SecondFits(b[0], b[1])
    ensures Begins(b)
  {
    var p, q := Bits(b[0], if Width(b[0]) == 3 then 0xE0 else 0xF0), Bits(b[1], 0x80);
    if Width(b[0]) == 3 {
      var n := 0x1000 * p + 0x40 * q;
      var c := n as char;
      assert n / 0x40 / 0x40 == p && n / 0x40 % 0x40 == q;
      assert b <= EncodeChar(c);
    } else {
      var n := 0x4_0000 * p + 0x1000 * q;
      var c := n as char;
      assert n / 0x40 / 0x40 / 0x40 == p && n / 0x40 / 0x40 % 0x40 == q;
      assert b <= EncodeChar(c);
    }
  }

  lemma ThreeBegin(b: seq<byte>)
    requires |b| == 3 && Width(b[0]) == 4 && SecondFits(b[0], b[1]) && IsTail(b[2])
    ensures Begins(b)
  {
    var p, q, r := Bits(b[0], 0xF0), Bits(b[1], 0x80), Bits(b[2], 0x80);
    var n := 0x4_0000 * p + 0x1000 * q + 0x40 * r;
    var c := n as char;
    assert n / 0x40 / 0x40 / 0x40 == p && n / 0x40 / 0x40 % 0x40 == q && n / 0x40 % 0x40 == r;
    assert b <= EncodeChar(c);
  }

  /**
   Where no character is encoded, the bytes replaced by U+FFFD are the longest that begin the
   encoding of some character, or else one byte.
   */
  lemma ReplacedPart(b: seq<byte>)
    requires b != [] && forall c :: !(EncodeChar(c) <= b)
    ensures var (n, c) := First(b);
            c == '\U{FFFD}' && (n > 1 ==> Begins(b[..n])) && (forall k :: n < k <= |b| ==> !Begins(b[..k])) &&
            Lossy(b) == "\U{FFFD}" + Lossy(b[n..])
  {
    NotComplete(b);
    Unfinished(b);
    hide EncodeChar, Begins, First, Complete;
    var (n, _) := First(b);
    forall k | n < k <= |b|
      ensures !Begins(b[..k])
    {
      LongerDoesNot(b, k);
    }
  }

  lemma NotComplete(b: seq<byte>)
    requires forall c :: !(EncodeChar(c) <= b)
    ensures !Complete(b)
  {
    hide EncodeChar;
    if Complete(b) {
      WholeIsEncoded(b);
    }
  }

  lemma Unfinished(b: seq<byte>)
    requires b != [] && !Complete(b)
    ensures First(b).1 == '\U{FFFD}' && (First(b).0 > 1 ==> Begins(b[..First(b).0]))
  {
    hide EncodeChar, Begins;
    var n := First(b).0;
    if n == 2 {
      TwoBegin(b[..2]);
    } else if n == 3 {
      ThreeBegin(b[..3]);
    }
  }

  /** The first bytes are a whole sequence of the length that the first announces. */
  predicate Complete(b: seq<byte>) {
    b != [] && Width(b[0]) > 0 && |b| >= Width(b[0]) &&
    (Width(b[0]) > 1 ==> SecondFits(b[0], b[1])) && (Width(b[0]) > 2 ==> IsTail(b[2])) && (Width(b[0]) > 3 ==> IsTail(b[3]))
  }

  lemma EncodeTwo(c: char, p: int, q: int)
    requires 2 <= p < 0x20 && 0 <= q < 0x40 && c as int == 0x40 * p + q
    ensures EncodeChar(c) == [0xC0 + p, 0x80 + q]
  {
  }

  lemma EncodeThree(c: char, p: int, q: int, r: int)
    requires 0 <= p < 0x10 && 0 <= q < 0x40 && 0 <= r < 0x40 && c as int == 0x40 * (0x40 * p + q) + r
    requires 0x800 <= c as int
    ensures EncodeChar(c) == [0xE0 + p, 0x80 + q, 0x80 + r]
  {
    assert c as int / 0x40 == 0x40 * p + q;
  }

  lemma EncodeFour(c: char, p: int, q: int, r: int, s: int)
    requires 0 <= p < 5 && 0 <= q < 0x40 && 0 <= r < 0x40 && 0 <= s < 0x40
    requires c as int == 0x40 * (0x40 * (0x40 * p + q) + r) + s && 0x1_0000 <= c as int
    ensures EncodeChar(c) == [0xF0 + p, 0x80 + q, 0x80 + r, 0x80 + s]
  {
    assert c as int / 0x40 == 0x40 * (0x40 * p + q) + r;
    assert c as int / 0x40 / 0x40 == 0x40 * p + q;
  }

  lemma WholeIsEncoded(b: seq<byte>)
    requires Complete(b)
    ensures EncodeChar(First(b).1) <= b
  {
    hide EncodeChar;
    var (w, c) := (Width(b[0]), First(b).1);
    if w == 1 {
      EncodeOne(c);
      assert [b[0]] == b[..1];
    } else if w == 2 {
      EncodeTwo(c, Bits(b[0], 0xC0), Bits(b[1], 0x80));
      assert [b[0], b[1]] == b[..2];
    } else if w == 3 {
      EncodeThree(c, Bits(b[0], 0xE0), Bits(b[1], 0x80), Bits(b[2], 0x80));
      assert [b[0], b[1], b[2]] == b[..3];
    } else {
      EncodeFour(c, Bits(b[0], 0xF0), Bits(b[1], 0x80), Bits(b[2], 0x80), Bits(b[3], 0x80));
      assert [b[0], b[1], b[2], b[3]] == b[..4];
    }
  }

  lemma EncodeOne(c: char)
    requires c < '\U{80}'
    ensures EncodeChar(c) == [c as int]
  {
  }

  lemma BegunFits(b: seq<byte>, k: nat)
    requires 1 < k <= |b|
    ensures Begins(b[..k]) ==>
              k <= Width(b[0]) && SecondFits(b[0], b[1]) && (k > 2 ==> IsTail(b[2])) && (k > 3 ==> IsTail(b[3]))
  {
    if c :| b[..k] <= EncodeChar(c) {
      EncodingFits(c);
      var e := EncodeChar(c);
      assert e[0] == b[0] && e[1] == b[1] && (k > 2 ==> e[2] == b[2]) && (k > 3 ==> e[3] == b[3]);
    }
  }

  lemma LongerDoesNot(b: seq<byte>, k: nat)
    requires b != [] && !Complete(b) && First(b).0 < k <= |b|
    ensures !Begins(b[..k])
  {
    BegunFits(b, k);
  }
}
