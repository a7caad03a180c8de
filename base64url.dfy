/** The url-safe base64 encoding of section 5 of RFC 4648 ('-' and '_' in
    place of '+' and '/', '=' padding), as `base64.urlsafe_b64encode` writes it
    and `base64.urlsafe_b64decode` reads it. */
module Base64Url {
  import opened Common

  predicate IsAlphabetChar(c: char)
  {
    IsAsciiAlnum(c) || c == '-' || c == '_'
  }

  /** The character that encodes the six-bit value `i`. */
  function CharOf(i: nat): (c: char)
    requires i < 64
    ensures IsAlphabetChar(c) && c != '='
  {
    if i < 26 then ('A' as int + i) as char
    else if i < 52 then ('a' as int + (i - 26)) as char
    else if i < 62 then ('0' as int + (i - 52)) as char
    else if i == 62 then '-'
    else '_'
  }

  /** The six-bit value an alphabet character encodes. */
  function ValueOf(c: char): (i: nat)
    requires IsAlphabetChar(c)
    ensures i < 64 && CharOf(i) == c
  {
    if 'A' <= c <= 'Z' then c as int - 'A' as int
    else if 'a' <= c <= 'z' then c as int - 'a' as int + 26
    else if '0' <= c <= '9' then c as int - '0' as int + 52
    else if c == '-' then 62
    else 63
  }

  lemma ValueOfCharOf(i: nat)
    requires i < 64
    ensures ValueOf(CharOf(i)) == i
  {
  }

  /** Three bytes as four characters. */
  function EncodeQuantum(a: byte, b: byte, c: byte): (s: string)
    ensures |s| == 4
  {
    [CharOf(a / 4), CharOf(a % 4 * 16 + b / 16), CharOf(b % 16 * 4 + c / 64), CharOf(c % 64)]
  }

  /** `base64.urlsafe_b64encode`. */
  function Encode(bs: seq<byte>): (s: string)
    ensures |s| == (|bs| + 2) / 3 * 4
    decreases |bs|
  {
    if |bs| == 0 then ""
    else if |bs| == 1 then [CharOf(bs[0] / 4), CharOf(bs[0] % 4 * 16), '=', '=']
    else if |bs| == 2 then [CharOf(bs[0] / 4), CharOf(bs[0] % 4 * 16 + bs[1] / 16), CharOf(bs[1] % 16 * 4), '=']
    else EncodeQuantum(bs[0], bs[1], bs[2]) + Encode(bs[3..])
  }

  /** Four alphabet characters as three bytes. */
  function DecodeQuantum(s: string): (r: Option<seq<byte>>)
    requires |s| == 4
    ensures r.Some? ==> |r.value| == 3
  {
    if IsAlphabetChar(s[0]) && IsAlphabetChar(s[1]) && IsAlphabetChar(s[2]) && IsAlphabetChar(s[3]) then
      var i0, i1, i2, i3 := ValueOf(s[0]), ValueOf(s[1]), ValueOf(s[2]), ValueOf(s[3]);
      Some([i0 * 4 + i1 / 16, i1 % 16 * 16 + i2 / 4, i2 % 4 * 64 + i3])
    else None
  }

  /** The last four characters, which may end in one or two '='. */
  function DecodeFinalQuantum(s: string): (r: Option<seq<byte>>)
    requires |s| == 4
  {
    if s[2] == '=' && s[3] == '=' then
      if IsAlphabetChar(s[0]) && IsAlphabetChar(s[1]) then Some([ValueOf(s[0]) * 4 + ValueOf(s[1]) / 16])
      else None
    else if s[3] == '=' then
      if IsAlphabetChar(s[0]) && IsAlphabetChar(s[1]) && IsAlphabetChar(s[2]) then
        var i0, i1, i2 := ValueOf(s[0]), ValueOf(s[1]), ValueOf(s[2]);
        Some([i0 * 4 + i1 / 16, i1 % 16 * 16 + i2 / 4])
      else None
    else DecodeQuantum(s)
  }

  /** `base64.urlsafe_b64decode` on well-formed input: a whole number of
      quanta, padding only at the end; None where Python raises. */
  function Decode(s: string): (r: Option<seq<byte>>)
    decreases |s|
  {
    if |s| == 0 then Some([])
    else if |s| < 4 then None
    else if |s| == 4 then DecodeFinalQuantum(s)
    else
      match DecodeQuantum(s[..4])
      case None => None
      case Some(q) =>
        match Decode(s[4..])
        case None => None
        case Some(rest) => Some(q + rest)
  }

  /** The first byte is its top six bits followed by the next two. */
  lemma FirstByteBack(a: byte, b: byte)
    ensures a / 4 * 4 + (a % 4 * 16 + b / 16) / 16 == a
  {
    assert (a % 4 * 16 + b / 16) / 16 == a % 4;
  }

  /** The middle byte is split four and four across two characters. */
  lemma MiddleByteBack(b: byte, c: byte)
    ensures (b % 16 * 4 + c / 64) / 4 == b % 16
    ensures b / 16 * 16 + b % 16 == b
  {
  }

  /** The last byte is its top two bits followed by the low six. */
  lemma LastByteBack(b: byte, c: byte)
    ensures (b % 16 * 4 + c / 64) % 4 * 64 + c % 64 == c
  {
    assert (b % 16 * 4 + c / 64) % 4 == c / 64;
  }

  lemma QuantumRoundTrip(a: byte, b: byte, c: byte)
    ensures DecodeQuantum(EncodeQuantum(a, b, c)) == Some([a, b, c])
  {
    var i0, i1, i2, i3 := a / 4, a % 4 * 16 + b / 16, b % 16 * 4 + c / 64, c % 64;
    ValueOfCharOf(i0);
    ValueOfCharOf(i1);
    ValueOfCharOf(i2);
    ValueOfCharOf(i3);
    FirstByteBack(a, b);
    MiddleByteBack(b, c);
    assert i1 % 16 == b / 16;
    LastByteBack(b, c);
  }

  /** The final, padded quantum: one to three bytes. */
  lemma {:induction false} ShortRoundTrip(bs: seq<byte>)
    requires 1 <= |bs| <= 3
    ensures Decode(Encode(bs)) == Some(bs)
  {
    var a := bs[0];
    ValueOfCharOf(a / 4);
    if |bs| == 1 {
      ValueOfCharOf(a % 4 * 16);
      assert bs == [a];
    } else if |bs| == 2 {
      var b := bs[1];
      ValueOfCharOf(a % 4 * 16 + b / 16);
      ValueOfCharOf(b % 16 * 4);
      assert (a % 4 * 16 + b / 16) / 16 == a % 4;
      assert (a % 4 * 16 + b / 16) % 16 == b / 16;
      assert bs == [a, b];
    } else {
      QuantumRoundTrip(bs[0], bs[1], bs[2]);
      assert bs[3..] == [];
      assert Encode(bs) == EncodeQuantum(bs[0], bs[1], bs[2]);
      assert bs == [bs[0], bs[1], bs[2]];
    }
  }

  /** A quantum that decodes in front of text that decodes. */
  lemma DecodeCons(q: string, t: string)
    requires |q| == 4 && t != []
    requires DecodeQuantum(q).Some? && Decode(t).Some?
    ensures Decode(q + t) == Some(DecodeQuantum(q).value + Decode(t).value)
  {
    assert (q + t)[..4] == q;
    assert (q + t)[4..] == t;
  }

  /** One full quantum in front of a part that already round-trips. */
  lemma {:induction false} QuantumStep(bs: seq<byte>)
    requires |bs| > 3
    requires Decode(Encode(bs[3..])) == Some(bs[3..])
    ensures Decode(Encode(bs)) == Some(bs)
  {
    var q := EncodeQuantum(bs[0], bs[1], bs[2]);
    var t := Encode(bs[3..]);
    QuantumRoundTrip(bs[0], bs[1], bs[2]);
    DecodeCons(q, t);
    assert bs == [bs[0], bs[1], bs[2]] + bs[3..];
  }

  /** Decoding an encoding gives the bytes back. */
  lemma {:induction false} DecodeEncode(bs: seq<byte>)
    ensures Decode(Encode(bs)) == Some(bs)
    decreases |bs|
  {
    if 1 <= |bs| <= 3 {
      ShortRoundTrip(bs);
    } else if |bs| > 3 {
      DecodeEncode(bs[3..]);
      QuantumStep(bs);
    }
  }
}
