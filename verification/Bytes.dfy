/** Bytes, results and the big-endian integers every layer shares. */
module Bytes {

  type byte = b: int | 0 <= b < 0x100
  type u16 = n: int | 0 <= n < 0x1_0000
  type u32 = n: int | 0 <= n < 0x1_0000_0000
  type u64 = n: int | 0 <= n < 0x1_0000_0000_0000_0000

  const U32_MAX: u32 := 0xFFFF_FFFF

  datatype Option<+T> = None | Some(value: T)

  datatype Result<+T, +E> = Ok(value: T) | Err(error: E) {
    predicate IsFailure() {
      Err?
    }

    function PropagateFailure<U>(): Result<U, E>
      requires Err?
    {
      Err(error)
    }

    function Extract(): T
      requires Ok?
    {
      value
    }
  }

  function Min(a: int, b: int): int {
    if a < b then a else b
  }

  function Zeros(n: nat): seq<byte> {
    seq(n, _ => 0)
  }

  predicate IsAscii(s: seq<byte>) {
    forall i :: 0 <= i < |s| ==> s[i] < 0x80
  }

  function U16Be(n: u16): seq<byte> {
    [n / 0x100, n % 0x100]
  }

  function U16OfBe(hi: byte, lo: byte): u16 {
    hi * 0x100 + lo
  }

  lemma U16RoundTrip(n: u16, s: seq<byte>)
    requires s == U16Be(n)
    ensures |s| == 2 && U16OfBe(s[0], s[1]) == n
  {
  }

  lemma U16Inverse(hi: byte, lo: byte)
    ensures U16Be(U16OfBe(hi, lo)) == [hi, lo]
  {
  }

  /** The high byte comes first. */
  lemma U16Bytes(n: u16, hi: byte, lo: byte)
    ensures U16Be(n)[0] as int * 0x100 + U16Be(n)[1] as int == n && U16OfBe(hi, lo) == hi as int * 0x100 + lo as int
  {
  }

  /** `n` written on `width` bytes, most significant first. */
  function ToBe(n: nat, width: nat): (s: seq<byte>)
    ensures |s| == width
    decreases width
  {
    if width == 0 then [] else ToBe(n / 0x100, width - 1) + [n % 0x100]
  }

  function OfBe(s: seq<byte>): nat {
    if s == [] then 0 else OfBe(s[..|s| - 1]) * 0x100 + s[|s| - 1]
  }

  function Pow256(n: nat): (p: nat)
    ensures p > 0
  {
    if n == 0 then 1 else 0x100 * Pow256(n - 1)
  }

  /** Fixed-width big-endian numbers are read back as written. */
  lemma {:induction false} BeRoundTrip(n: nat, width: nat)
    requires n < Pow256(width)
    ensures OfBe(ToBe(n, width)) == n
    decreases width
  {
    if width > 0 {
      BeRoundTrip(n / 0x100, width - 1);
      assert ToBe(n, width)[..width - 1] == ToBe(n / 0x100, width - 1);
    }
  }

  /** A 64-bit number, most significant byte first. */
  function U64Be(n: u64): (s: seq<byte>)
    ensures |s| == 8
  {
    ToBe(n, 8)
  }

  function U64OfBe(s: seq<byte>): u64
    requires |s| == 8
  {
    OfBeBound(s);
    Pow256Of8();
    OfBe(s)
  }

  lemma ToBeLast(n: nat, width: nat)
    requires width > 0
    ensures ToBe(n, width)[..width - 1] == ToBe(n / 0x100, width - 1) && ToBe(n, width)[width - 1] == n % 0x100
  {
  }

  /** The bytes of a time, the most significant first. */
  lemma U64Bytes(n: u64, i: nat)
    requires i < 8
    ensures U64Be(n)[7 - i] as int == n / Pow256(i) % 0x100
  {
    ToBeAt(n, 8, i);
  }

  lemma {:induction false} ToBeAt(n: nat, width: nat, i: nat)
    requires i < width
    ensures ToBe(n, width)[width - 1 - i] as int == n / Pow256(i) % 0x100
    decreases width
  {
    ToBeLast(n, width);
    if i > 0 {
      ToBeAt(n / 0x100, width - 1, i - 1);
      assert ToBe(n, width)[width - 1 - i] == ToBe(n, width)[..width - 1][width - 1 - i];
      DivTwice(n, Pow256(i - 1));
    }
  }

  lemma DivTwice(n: nat, d: nat)
    requires d > 0
    ensures n / 0x100 / d == n / (0x100 * d)
  {
    var m := n / 0x100;
    var q := m / d;
    var e := m % d;
    assert m == d * q + e;
    assert n == 0x100 * m + n % 0x100;
    assert n == (0x100 * d) * q + (0x100 * e + n % 0x100);
    assert 0 <= 0x100 * e + n % 0x100 < 0x100 * d;
    QuotientIs(n, 0x100 * d, q, 0x100 * e + n % 0x100);
  }

  lemma QuotientIs(n: nat, d: nat, q: nat, r: nat)
    requires n == d * q + r && r < d
    ensures n / d == q
  {
    var a := n / d - q;
    assert n == d * (n / d) + n % d;
    assert d * a == r - n % d;
    FarMultiples(d, a);
  }

  lemma FarMultiples(d: nat, a: int)
    ensures a >= 1 ==> d * a >= d
    ensures a <= -1 ==> d * a <= -1 * d
  {
    if a >= 1 {
      assert d * a == d + d * (a - 1);
    } else if a <= -1 {
      assert d * a == -1 * d + d * (a + 1);
    }
  }

  lemma {:induction false} OfBeBound(s: seq<byte>)
    ensures OfBe(s) < Pow256(|s|)
  {
    if s != [] {
      OfBeBound(s[..|s| - 1]);
    }
  }

  lemma Pow256Of8()
    ensures Pow256(8) == 0x1_0000_0000_0000_0000
  {
    assert Pow256(4) == 0x1_0000_0000;
  }

  /** The eight bytes of a time are read back as written. */
  lemma U64RoundTrip(n: u64)
    ensures U64OfBe(U64Be(n)) == n
  {
    Pow256Of8();
    BeRoundTrip(n, 8);
  }
}
