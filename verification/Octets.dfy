/** Bytes as small numbers, and the two readings of them as text that the archive walker uses. */
module Octets {
  import opened Wrappers
  import opened Text

  newtype u8 = x: int | 0 <= x < 0x100

  type Bytes = seq<u8>

  /** `char::from(u8)` on every byte. */
  function Latin1(b: Bytes): (s: string)
    ensures |s| == |b|
  {
    seq(|b|, i requires 0 <= i < |b| => b[i] as int as char)
  }

  predicate IsLatin1(s: string) {
    forall i :: 0 <= i < |s| ==> s[i] as int < 0x100
  }

  function ToLatin1(s: string): (b: Bytes)
    requires IsLatin1(s)
    ensures |b| == |s|
  {
    seq(|s|, i requires 0 <= i < |s| => s[i] as int as u8)
  }

  lemma Latin1RoundTrip(s: string)
    requires IsLatin1(s)
    ensures Latin1(ToLatin1(s)) == s
  {
  }

  // ----- UTF-8 -----

  predicate Tail(b: u8) {
    0x80 <= b <= 0xBF
  }

  /** One well-formed sequence at the front: its scalar value and its length (table 3-7 of the
      Unicode Standard). */
  function Scalar(b: Bytes): (r: Option<(char, nat)>)
    ensures r.Some? ==> 1 <= r.value.1 <= |b|
    ensures b != [] && b[0] < 0x80 ==> r == Some((b[0] as int as char, 1))
  {
    if b == [] then None
    else if b[0] < 0x80 then Some((b[0] as int as char, 1))
    else if |b| >= 2 && 0xC2 <= b[0] <= 0xDF && Tail(b[1]) then
      Some((((b[0] as int - 0xC0) * 0x40 + (b[1] as int - 0x80)) as char, 2))
    else if |b| >= 3 && 0xE0 <= b[0] <= 0xEF && Tail(b[1]) && Tail(b[2])
            && (b[0] == 0xE0 ==> b[1] >= 0xA0) && (b[0] == 0xED ==> b[1] <= 0x9F) then
      Some((((b[0] as int - 0xE0) * 0x1000 + (b[1] as int - 0x80) * 0x40 + (b[2] as int - 0x80)) as char, 3))
    else if |b| >= 4 && 0xF0 <= b[0] <= 0xF4 && Tail(b[1]) && Tail(b[2]) && Tail(b[3])
            && (b[0] == 0xF0 ==> b[1] >= 0x90) && (b[0] == 0xF4 ==> b[1] <= 0x8F) then
      Some((((b[0] as int - 0xF0) * 0x40000 + (b[1] as int - 0x80) * 0x1000
             + (b[2] as int - 0x80) * 0x40 + (b[3] as int - 0x80)) as char, 4))
    else None
  }

  /** `str::from_utf8`. */
  function Utf8(b: Bytes): (r: Option<string>)
    ensures r.Some? ==> |r.value| <= |b|
    decreases |b|
  {
    if b == [] then Some("")
    else
      var (c, n) :- Scalar(b);
      var rest :- Utf8(b[n..]);
      Some([c] + rest)
  }

  predicate IsAscii(s: string) {
    forall i :: 0 <= i < |s| ==> s[i] as int < 0x80
  }

  lemma {:induction false} Utf8OfAscii(s: string)
    requires IsAscii(s)
    ensures Utf8(ToLatin1(s)) == Some(s)
  {
    if s != "" {
      Utf8OfAscii(s[1..]);
      assert ToLatin1(s)[1..] == ToLatin1(s[1..]);
      assert [s[0]] + s[1..] == s;
    }
  }

  // ----- Writing UTF-8 -----

  /** The bytes of one character. */
  function CharBytes(c: char): (b: Bytes)
    ensures 1 <= |b| <= 4
  {
    var v := c as int;
    if v < 0x80 then [v as u8]
    else if v < 0x800 then [(0xC0 + v / 0x40) as u8, (0x80 + v % 0x40) as u8]
    else if v < 0x1_0000 then
      [(0xE0 + v / 0x1000) as u8, (0x80 + v / 0x40 % 0x40) as u8, (0x80 + v % 0x40) as u8]
    else
      [(0xF0 + v / 0x4_0000) as u8, (0x80 + v / 0x1000 % 0x40) as u8, (0x80 + v / 0x40 % 0x40) as u8,
       (0x80 + v % 0x40) as u8]
  }

  /** `str::as_bytes`. */
  function Encode(s: string): (b: Bytes)
    ensures |b| >= |s|
  {
    if s == "" then [] else CharBytes(s[0]) + Encode(s[1..])
  }

  lemma ScalarOfTwo(c: char, s: Bytes)
    requires 0x80 <= c as int < 0x800 && |s| >= 2 && s[..2] == CharBytes(c)
    ensures Scalar(s) == Some((c, 2))
  {
    assert s[0] == s[..2][0] && s[1] == s[..2][1];
  }

  lemma ThreeDigits(v: int, a: int, b: int, c: int)
    requires 0 <= v && a == v / 0x1000 && b == v / 0x40 % 0x40 && c == v % 0x40
    ensures v == a * 0x1000 + b * 0x40 + c
  {
  }

  lemma ScalarOfThree(c: char, s: Bytes)
    requires 0x800 <= c as int < 0x1_0000 && |s| >= 3 && s[..3] == CharBytes(c)
    ensures Scalar(s) == Some((c, 3))
  {
    var v := c as int;
    ThreeDigits(v, v / 0x1000, v / 0x40 % 0x40, v % 0x40);
    assert s[0] == s[..3][0] && s[1] == s[..3][1] && s[2] == s[..3][2];
    assert v < 0xD800 || 0xE000 <= v;
  }

  lemma FourDigits(v: int, a: int, b: int, c: int, d: int)
    requires 0 <= v && a == v / 0x4_0000 && b == v / 0x1000 % 0x40 && c == v / 0x40 % 0x40 && d == v % 0x40
    ensures v == a * 0x4_0000 + b * 0x1000 + c * 0x40 + d
  {
    var q := v / 0x1000;
    assert q / 0x40 == a;
    assert q == a * 0x40 + b;
    var r := v / 0x40;
    assert r / 0x40 == q;
    assert r == q * 0x40 + c;
  }

  lemma ScalarOfFour(c: char, s: Bytes)
    requires 0x1_0000 <= c as int && |s| >= 4 && s[..4] == CharBytes(c)
    ensures Scalar(s) == Some((c, 4))
  {
    var v := c as int;
    FourDigits(v, v / 0x4_0000, v / 0x1000 % 0x40, v / 0x40 % 0x40, v % 0x40);
    assert s[0] == s[..4][0] && s[1] == s[..4][1] && s[2] == s[..4][2] && s[3] == s[..4][3];
  }

  lemma ScalarOfChar(c: char, b: Bytes, rest: Bytes)
    requires b == CharBytes(c)
    ensures Scalar(b + rest) == Some((c, |b|))
  {
    var s := b + rest;
    assert s[..|b|] == b;
    if c as int < 0x80 {
      assert s[0] == b[0];
    } else if c as int < 0x800 {
      ScalarOfTwo(c, s);
    } else if c as int < 0x1_0000 {
      ScalarOfThree(c, s);
    } else {
      ScalarOfFour(c, s);
    }
  }

  lemma {:induction false} Utf8InvertsEncode(s: string)
    ensures Utf8(Encode(s)) == Some(s)
  {
    if s != "" {
      var b := CharBytes(s[0]);
      ScalarOfChar(s[0], b, Encode(s[1..]));
      assert (b + Encode(s[1..]))[|b|..] == Encode(s[1..]);
      Utf8InvertsEncode(s[1..]);
      assert [s[0]] + s[1..] == s;
    }
  }

  /** Only the null character is written with a zero byte. */
  lemma {:induction false} ZeroBytes(s: string)
    ensures 0 in Encode(s) <==> '\0' in s
  {
    if s != "" {
      ZeroBytes(s[1..]);
      assert 0 in CharBytes(s[0]) <==> s[0] == '\0';
      assert s == [s[0]] + s[1..];
    }
  }
}
