/** UTF-8 encoding of a string, as Python's `str.encode()` does it before
    the job id is Base64-encoded for display, together with its decoder. */
module Utf8 {
  import opened Wrappers

  type Byte = b: int | 0 <= b < 256

  /** True of the code points a Dafny `char` can hold: Unicode scalar values. */
  predicate IsScalar(n: int) {
    0 <= n < 0xD800 || 0xE000 <= n < 0x11_0000
  }

  /** The one- to four-byte UTF-8 sequence of a single character. */
  function EncodeChar(c: char): (r: seq<Byte>)
    ensures 1 <= |r| <= 4
    ensures |r| == LeadLength(r[0])
    ensures forall i :: 1 <= i < |r| ==> 0x80 <= r[i] < 0xC0
  {
    var n := c as int;
    if n < 0x80 then [n]
    else if n < 0x800 then [0xC0 + n / 64, 0x80 + n % 64]
    else if n < 0x1_0000 then [0xE0 + n / 4096, 0x80 + n / 64 % 64, 0x80 + n % 64]
    else [0xF0 + n / 262144, 0x80 + n / 4096 % 64, 0x80 + n / 64 % 64, 0x80 + n % 64]
  }

  /** How many bytes a sequence that starts with lead byte `b` takes (0: not a lead byte). */
  function LeadLength(b: Byte): nat {
    if b < 0x80 then 1
    else if b < 0xC0 then 0
    else if b < 0xE0 then 2
    else if b < 0xF0 then 3
    else if b < 0xF8 then 4
    else 0
  }

  predicate IsContinuation(b: Byte) {
    0x80 <= b < 0xC0
  }

  /** The code point a well-formed sequence of `LeadLength(b[0])` bytes stands for. */
  function DecodeChar(b: seq<Byte>): (r: Option<char>)
    requires 1 <= |b| <= 4 && |b| == LeadLength(b[0])
  {
    if exists i :: 1 <= i < |b| && !IsContinuation(b[i]) then None
    else
      var b0, b1, b2, b3 := b[0] as int, (if |b| > 1 then b[1] else 0) as int,
        (if |b| > 2 then b[2] else 0) as int, (if |b| > 3 then b[3] else 0) as int;
      var n :=
        if |b| == 1 then b0
        else if |b| == 2 then (b0 - 0xC0) * 64 + (b1 - 0x80)
        else if |b| == 3 then ((b0 - 0xE0) * 64 + (b1 - 0x80)) * 64 + (b2 - 0x80)
        else (((b0 - 0xF0) * 64 + (b1 - 0x80)) * 64 + (b2 - 0x80)) * 64 + (b3 - 0x80);
      var least := if |b| == 1 then 0 else if |b| == 2 then 0x80 else if |b| == 3 then 0x800 else 0x1_0000;
      if least <= n && IsScalar(n) then Some(n as char) else None
  }

  function Encode(s: string): (r: seq<Byte>)
    ensures |s| <= |r| <= 4 * |s|
  {
    if s == [] then [] else EncodeChar(s[0]) + Encode(s[1..])
  }

  /** Strict decoder: None on a truncated, overlong or surrogate sequence. */
  function Decode(b: seq<Byte>): (r: Option<string>)
    decreases |b|
  {
    if b == [] then Some([])
    else
      var k := LeadLength(b[0]);
      if k == 0 || |b| < k then None
      else match DecodeChar(b[..k])
        case None => None
        case Some(c) =>
          match Decode(b[k..])
          case None => None
          case Some(rest) => Some([c] + rest)
  }

  /** The six-bit groups of `n`, most significant first, recombine to `n`. */
  lemma SixBitDigits(n: nat)
    ensures n / 64 * 64 + n % 64 == n
    ensures n / 4096 * 64 + n / 64 % 64 == n / 64
    ensures n / 262144 * 64 + n / 4096 % 64 == n / 4096
  {
  }

  lemma EncodeCharRoundTrip(c: char)
    ensures DecodeChar(EncodeChar(c)) == Some(c)
  {
    var n := c as int;
    var e := EncodeChar(c);
    SixBitDigits(n);
    if n < 0x80 {
    } else if n < 0x800 {
      assert e == [0xC0 + n / 64, 0x80 + n % 64];
      assert IsContinuation(e[1]);
    } else if n < 0x1_0000 {
      assert e == [0xE0 + n / 4096, 0x80 + n / 64 % 64, 0x80 + n % 64];
      assert IsContinuation(e[1]) && IsContinuation(e[2]);
    } else {
      assert e == [0xF0 + n / 262144, 0x80 + n / 4096 % 64, 0x80 + n / 64 % 64, 0x80 + n % 64];
      assert IsContinuation(e[1]) && IsContinuation(e[2]) && IsContinuation(e[3]);
    }
  }

  /** Decoding undoes encoding, so distinct ids have distinct byte strings. */
  lemma {:induction false} RoundTrip(s: string)
    ensures Decode(Encode(s)) == Some(s)
  {
    if s != [] {
      var e := EncodeChar(s[0]);
      var b := Encode(s);
      assert b == e + Encode(s[1..]);
      var k := |e|;
      assert b[..k] == e;
      assert b[k..] == Encode(s[1..]);
      EncodeCharRoundTrip(s[0]);
      RoundTrip(s[1..]);
      assert [s[0]] + s[1..] == s;
    }
  }

  lemma EncodeInjective(s: string, t: string)
    requires Encode(s) == Encode(t)
    ensures s == t
  {
    RoundTrip(s);
    RoundTrip(t);
  }
}
