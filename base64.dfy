/** Base64 with the standard alphabet and `=` padding, section 4 of
    RFC 4648: the display form of a job id in the file listing. */
module Base64 {
  import opened Wrappers
  import Utf8

  type Byte = Utf8.Byte

  type Sextet = i: int | 0 <= i < 64

  /** The character of value `i` in the alphabet A-Z a-z 0-9 + /. */
  function CharOf(i: Sextet): char {
    if i < 26 then ('A' as int + i) as char
    else if i < 52 then ('a' as int + i - 26) as char
    else if i < 62 then ('0' as int + i - 52) as char
    else if i == 62 then '+'
    else '/'
  }

  /** The value of an alphabet character; None for `=` and every other character. */
  function ValueOf(c: char): (r: Option<Sextet>)
    ensures r.Some? ==> CharOf(r.value) == c
  {
    if 'A' <= c <= 'Z' then Some(c as int - 'A' as int)
    else if 'a' <= c <= 'z' then Some(c as int - 'a' as int + 26)
    else if '0' <= c <= '9' then Some(c as int - '0' as int + 52)
    else if c == '+' then Some(62)
    else if c == '/' then Some(63)
    else None
  }

  lemma ValueOfCharOf(i: Sextet)
    ensures ValueOf(CharOf(i)) == Some(i)
  {
  }

  /** One 24-bit group: three octets become four characters. */
  function EncodeGroup(b0: Byte, b1: Byte, b2: Byte): seq<char> {
    [CharOf(b0 / 4), CharOf(b0 % 4 * 16 + b1 / 16), CharOf(b1 % 16 * 4 + b2 / 64), CharOf(b2 % 64)]
  }

  /** The encoding of a byte string: full groups, then a final group padded
      with `==` (one octet left) or `=` (two octets left). */
  function Encode(b: seq<Byte>): (r: string)
    ensures |r| == 4 * ((|b| + 2) / 3)
  {
    if |b| == 0 then ""
    else if |b| == 1 then [CharOf(b[0] / 4), CharOf(b[0] % 4 * 16), '=', '=']
    else if |b| == 2 then [CharOf(b[0] / 4), CharOf(b[0] % 4 * 16 + b[1] / 16), CharOf(b[1] % 16 * 4), '=']
    else EncodeGroup(b[0], b[1], b[2]) + Encode(b[3..])
  }

  /** Octets of a quantum of four characters, the last one or two of which may be `=`. */
  function DecodeQuantum(q: seq<char>, last: bool): (r: Option<seq<Byte>>)
    requires |q| == 4
  {
    var v0, v1, v2, v3 := ValueOf(q[0]), ValueOf(q[1]), ValueOf(q[2]), ValueOf(q[3]);
    if v0.None? || v1.None? then None
    else
      var b0 := v0.value * 4 + v1.value / 16;
      if last && q[2] == '=' && q[3] == '=' then Some([b0])
      else if v2.None? then None
      else
        var b1 := v1.value % 16 * 16 + v2.value / 4;
        if last && q[3] == '=' then Some([b0, b1])
        else if v3.None? then None
        else Some([b0, b1, v2.value % 4 * 64 + v3.value])
  }

  /** Decoder for text whose length is a multiple of four; padding only in the last quantum. */
  function Decode(s: string): (r: Option<seq<Byte>>)
    decreases |s|
  {
    if |s| == 0 then Some([])
    else if |s| < 4 then None
    else match DecodeQuantum(s[..4], |s| == 4)
      case None => None
      case Some(head) =>
        match Decode(s[4..])
        case None => None
        case Some(tail) => Some(head + tail)
  }

  lemma GroupRoundTrip(b0: Byte, b1: Byte, b2: Byte, last: bool)
    ensures DecodeQuantum(EncodeGroup(b0, b1, b2), last) == Some([b0, b1, b2])
  {
    var q := EncodeGroup(b0, b1, b2);
    ValueOfCharOf(b0 / 4);
    ValueOfCharOf(b0 % 4 * 16 + b1 / 16);
    ValueOfCharOf(b1 % 16 * 4 + b2 / 64);
    ValueOfCharOf(b2 % 64);
    assert (b0 % 4 * 16 + b1 / 16) / 16 == b0 % 4;
    assert (b0 % 4 * 16 + b1 / 16) % 16 == b1 / 16;
    assert (b1 % 16 * 4 + b2 / 64) / 4 == b1 % 16;
    assert (b1 % 16 * 4 + b2 / 64) % 4 == b2 / 64;
  }

  lemma OneOctetQuantum(b0: Byte)
    ensures DecodeQuantum([CharOf(b0 / 4), CharOf(b0 % 4 * 16), '=', '='], true) == Some([b0])
  {
    ValueOfCharOf(b0 / 4);
    ValueOfCharOf(b0 % 4 * 16);
  }

  lemma TwoOctetQuantum(b0: Byte, b1: Byte)
    ensures DecodeQuantum([CharOf(b0 / 4), CharOf(b0 % 4 * 16 + b1 / 16), CharOf(b1 % 16 * 4), '='], true)
         == Some([b0, b1])
  {
    ValueOfCharOf(b0 / 4);
    ValueOfCharOf(b0 % 4 * 16 + b1 / 16);
    ValueOfCharOf(b1 % 16 * 4);
    assert (b0 % 4 * 16 + b1 / 16) / 16 == b0 % 4;
    assert (b0 % 4 * 16 + b1 / 16) % 16 == b1 / 16;
  }

  /** A text of one quantum decodes as a final quantum. */
  lemma DecodeSingle(s: string)
    requires |s| == 4
    ensures Decode(s) == DecodeQuantum(s, true)
  {
    assert s[..4] == s;
    assert Decode(s[4..]) == Some([]);
    match DecodeQuantum(s, true)
    case None =>
    case Some(h) => assert h + [] == h;
  }

  lemma OneOctetRoundTrip(b: seq<Byte>)
    requires |b| == 1
    ensures Decode(Encode(b)) == Some(b)
  {
    DecodeSingle(Encode(b));
    OneOctetQuantum(b[0]);
    assert [b[0]] == b;
  }

  lemma TwoOctetRoundTrip(b: seq<Byte>)
    requires |b| == 2
    ensures Decode(Encode(b)) == Some(b)
  {
    DecodeSingle(Encode(b));
    TwoOctetQuantum(b[0], b[1]);
    assert [b[0], b[1]] == b;
  }

  lemma DecodeStep(s: string, head: seq<Byte>, tail: seq<Byte>)
    requires |s| >= 4
    requires DecodeQuantum(s[..4], |s| == 4) == Some(head)
    requires Decode(s[4..]) == Some(tail)
    ensures Decode(s) == Some(head + tail)
  {
  }

  lemma EncodeStep(b: seq<Byte>)
    requires |b| >= 3
    ensures Encode(b) == EncodeGroup(b[0], b[1], b[2]) + Encode(b[3..])
  {
  }

  lemma SplitQuantum(g: string, rest: string)
    requires |g| == 4
    ensures (g + rest)[..4] == g && (g + rest)[4..] == rest && |g + rest| >= 4
  {
  }

  /** One full group in front of a text that decodes keeps it decoding. */
  lemma GroupStep(b0: Byte, b1: Byte, b2: Byte, rest: string, tail: seq<Byte>)
    requires Decode(rest) == Some(tail)
    ensures Decode(EncodeGroup(b0, b1, b2) + rest) == Some([b0, b1, b2] + tail)
  {
    var g := EncodeGroup(b0, b1, b2);
    SplitQuantum(g, rest);
    GroupRoundTrip(b0, b1, b2, |rest| == 0);
    DecodeStep(g + rest, [b0, b1, b2], tail);
  }

  /** Decoding undoes encoding: the display id can be turned back into the id. */
  lemma {:induction false} RoundTrip(b: seq<Byte>)
    ensures Decode(Encode(b)) == Some(b)
  {
    if |b| == 1 {
      OneOctetRoundTrip(b);
    } else if |b| == 2 {
      TwoOctetRoundTrip(b);
    } else if |b| >= 3 {
      RoundTrip(b[3..]);
      EncodeStep(b);
      GroupStep(b[0], b[1], b[2], Encode(b[3..]), b[3..]);
      assert [b[0], b[1], b[2]] + b[3..] == b;
    }
  }

  /** Every character of an encoding is in the alphabet or is padding. */
  lemma {:induction false} EncodeAlphabet(b: seq<Byte>)
    ensures forall i :: 0 <= i < |Encode(b)| ==> Encode(b)[i] == '=' || ValueOf(Encode(b)[i]).Some?
  {
    if |b| == 1 {
      ValueOfCharOf(b[0] / 4);
      ValueOfCharOf(b[0] % 4 * 16);
    } else if |b| == 2 {
      ValueOfCharOf(b[0] / 4);
      ValueOfCharOf(b[0] % 4 * 16 + b[1] / 16);
      ValueOfCharOf(b[1] % 16 * 4);
    } else if |b| >= 3 {
      ValueOfCharOf(b[0] / 4);
      ValueOfCharOf(b[0] % 4 * 16 + b[1] / 16);
      ValueOfCharOf(b[1] % 16 * 4 + b[2] / 64);
      ValueOfCharOf(b[2] % 64);
      EncodeAlphabet(b[3..]);
    }
  }

  /** The test vectors of section 10 of RFC 4648, which fix the alphabet and
      its order ("f" is 102, "o" 111, "b" 98, "a" 97, "r" 114). */
  lemma StandardVectors()
    ensures Encode([]) == ""
    ensures Encode([102]) == "Zg=="
    ensures Encode([102, 111]) == "Zm8="
    ensures Encode([102, 111, 111]) == "Zm9v"
    ensures Encode([102, 111, 111, 98]) == "Zm9vYg=="
    ensures Encode([102, 111, 111, 98, 97]) == "Zm9vYmE="
    ensures Encode([102, 111, 111, 98, 97, 114]) == "Zm9vYmFy"
  {
  }
}
