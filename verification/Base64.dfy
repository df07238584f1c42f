/** base64 as in section 6.8 of RFC 2045. */
module Base64 {
  type Byte = n: nat | n < 256

  function CharOf(i: nat): char
    requires i < 64
  {
    if i < 26 then 'A' + i as char
    else if i < 52 then 'a' + (i - 26) as char
    else if i < 62 then '0' + (i - 52) as char
    else if i == 62 then '+' else '/'
  }

  function ValueOf(c: char): (i: nat)
    ensures i < 64
  {
    if 'A' <= c <= 'Z' then (c - 'A') as nat
    else if 'a' <= c <= 'z' then (c - 'a') as nat + 26
    else if '0' <= c <= '9' then (c - '0') as nat + 52
    else if c == '+' then 62 else 63
  }

  predicate Safe(c: char) {
    c != '-' && c != '\n'
  }

  lemma ValueOfCharOf(i: nat)
    requires i < 64
    ensures ValueOf(CharOf(i)) == i && CharOf(i) != '=' && Safe(CharOf(i))
  {
  }

  // The four characters that three bytes a, b and c become.

  function Char1(a: Byte): (r: char)
    ensures ValueOf(r) == a / 4 && Safe(r)
  {
    ValueOfCharOf(a / 4);
    CharOf(a / 4)
  }

  function Char2(a: Byte, b: Byte): (r: char)
    ensures ValueOf(r) == a % 4 * 16 + b / 16 && Safe(r)
  {
    ValueOfCharOf(a % 4 * 16 + b / 16);
    CharOf(a % 4 * 16 + b / 16)
  }

  function Char3(b: Byte, c: Byte): (r: char)
    ensures ValueOf(r) == b % 16 * 4 + c / 64 && r != '=' && Safe(r)
  {
    ValueOfCharOf(b % 16 * 4 + c / 64);
    CharOf(b % 16 * 4 + c / 64)
  }

  function Char4(c: Byte): (r: char)
    ensures ValueOf(r) == c % 64 && r != '=' && Safe(r)
  {
    ValueOfCharOf(c % 64);
    CharOf(c % 64)
  }

  // The three bytes that four characters stand for.

  function Byte1(p: char, q: char): Byte {
    (ValueOf(p) * 4 + ValueOf(q) / 16) % 256
  }

  function Byte2(q: char, r: char): Byte {
    (ValueOf(q) % 16 * 16 + ValueOf(r) / 4) % 256
  }

  function Byte3(r: char, s: char): Byte {
    (ValueOf(r) % 4 * 64 + ValueOf(s)) % 256
  }

  /** `base64_encode` */
  function Encode(data: seq<Byte>): string
  {
    if data == [] then ""
    else if |data| == 1 then [Char1(data[0]), Char2(data[0], 0), '=', '=']
    else if |data| == 2 then [Char1(data[0]), Char2(data[0], data[1]), Char3(data[1], 0), '=']
    else [Char1(data[0]), Char2(data[0], data[1]), Char3(data[1], data[2]), Char4(data[2])] + Encode(data[3..])
  }

  function Decode(s: string): seq<Byte>
  {
    if |s| < 4 then []
    else if s[2] == '=' then [Byte1(s[0], s[1])]
    else if s[3] == '=' then [Byte1(s[0], s[1]), Byte2(s[1], s[2])]
    else [Byte1(s[0], s[1]), Byte2(s[1], s[2]), Byte3(s[2], s[3])] + Decode(s[4..])
  }

  lemma Byte1Back(a: Byte, b: Byte)
    ensures Byte1(Char1(a), Char2(a, b)) == a
  {
    hide Char1, Char2, ValueOf;
  }

  lemma Byte2Back(a: Byte, b: Byte, c: Byte)
    ensures Byte2(Char2(a, b), Char3(b, c)) == b
  {
    hide Char2, Char3, ValueOf;
    assert (a % 4 * 16 + b / 16) % 16 == b / 16;
    assert (b % 16 * 4 + c / 64) / 4 == b % 16;
  }

  lemma Byte3Back(b: Byte, c: Byte)
    ensures Byte3(Char3(b, c), Char4(c)) == c
  {
    hide Char3, Char4, ValueOf;
  }

  lemma DecodeFour(s: string, rest: string)
    requires |s| == 4 && s[2] != '=' && s[3] != '='
    ensures Decode(s + rest) == [Byte1(s[0], s[1]), Byte2(s[1], s[2]), Byte3(s[2], s[3])] + Decode(rest)
  {
    assert (s + rest)[4..] == rest;
  }

  lemma {:induction false} DecodeEncode(data: seq<Byte>)
    ensures Decode(Encode(data)) == data
  {
    hide Char1, Char2, Char3, Char4, Byte1, Byte2, Byte3;
    if |data| == 1 {
      Byte1Back(data[0], 0);
    } else if |data| == 2 {
      Byte1Back(data[0], data[1]);
      Byte2Back(data[0], data[1], 0);
    } else if |data| > 2 {
      var a, b, c := data[0], data[1], data[2];
      Byte1Back(a, b);
      Byte2Back(a, b, c);
      Byte3Back(b, c);
      DecodeFour([Char1(a), Char2(a, b), Char3(b, c), Char4(c)], Encode(data[3..]));
      DecodeEncode(data[3..]);
      assert data == [a, b, c] + data[3..];
    }
  }

  /** No character of an encoding can start a boundary line or end a line. */
  lemma {:induction false} EncodingIsSafe(data: seq<Byte>)
    ensures forall c :: c in Encode(data) ==> Safe(c)
  {
    hide Char1, Char2, Char3, Char4;
    if |data| > 2 {
      EncodingIsSafe(data[3..]);
    }
  }

  /** Test vectors of section 10 of RFC 4648, and the last two characters of the alphabet. */
  lemma TestVectors()
    ensures Encode([102]) == "Zg==" && Encode([102, 111]) == "Zm8=" && Encode([102, 111, 111]) == "Zm9v"
    ensures Encode([251, 239, 255]) == "++//"
  {
  }
}
