/**
 * Base 64 encoding of section 4 of RFC 4648, as the handshake uses it for
 * the `Authorization: Basic` credential: every three octets become four
 * characters of the 64-character alphabet, and a final group of one or two
 * octets is padded with `=`.
 */
module Base64 {
  import opened Wrappers
  import opened Bytes

  const Pad: char := '='

  /**
   * The character for a 6-bit value, from the table of RFC 4648 section 4:
   * 0..25 are `A`..`Z`, 26..51 are `a`..`z`, 52..61 are `0`..`9`, then `+` and `/`.
   */
  function Digit(v: nat): (c: char)
    requires v < 64
  {
    if v < 26 then (65 + v) as char
    else if v < 52 then (97 + v - 26) as char
    else if v < 62 then (48 + v - 52) as char
    else if v == 62 then '+'
    else '/'
  }

  /** The 6-bit value of an alphabet character; `None` for any other character. */
  function Value(c: char): (r: Option<nat>)
    ensures r.Some? ==> r.value < 64 && Digit(r.value) == c
  {
    if 'A' <= c <= 'Z' then Some(c as int - 65)
    else if 'a' <= c <= 'z' then Some(c as int - 97 + 26)
    else if '0' <= c <= '9' then Some(c as int - 48 + 52)
    else if c == '+' then Some(62)
    else if c == '/' then Some(63)
    else None
  }

  lemma ValueOfDigit(v: nat)
    requires v < 64
    ensures Value(Digit(v)) == Some(v)
  {
  }

  /** The characters an encoding is made of. */
  predicate IsEncodingChar(c: char) {
    c == Pad || Value(c).Some?
  }

  /** Four characters for three octets. */
  function EncodeGroup(a: Byte, b: Byte, c: Byte): (q: string)
    ensures |q| == 4
  {
    [Digit(a / 4), Digit(a % 4 * 16 + b / 16), Digit(b % 16 * 4 + c / 64), Digit(c % 64)]
  }

  function Encode(s: seq<Byte>): (r: string)
    ensures |r| == 4 * ((|s| + 2) / 3)
    ensures forall i :: 0 <= i < |r| ==> IsEncodingChar(r[i])
    decreases |s|
  {
    if |s| == 0 then []
    else if |s| == 1 then [Digit(s[0] / 4), Digit(s[0] % 4 * 16), Pad, Pad]
    else if |s| == 2 then [Digit(s[0] / 4), Digit(s[0] % 4 * 16 + s[1] / 16), Digit(s[1] % 16 * 4), Pad]
    else EncodeGroup(s[0], s[1], s[2]) + Encode(s[3..])
  }

  /** Three octets from four alphabet characters. */
  function DecodeGroup(q: string): (r: Option<seq<Byte>>)
    requires |q| == 4
    ensures r.Some? ==> |r.value| == 3
  {
    match (Value(q[0]), Value(q[1]), Value(q[2]), Value(q[3]))
    case (Some(v0), Some(v1), Some(v2), Some(v3)) =>
      Some([v0 * 4 + v1 / 16, v1 % 16 * 16 + v2 / 4, v2 % 4 * 64 + v3])
    case _ => None
  }

  /** The last group of an encoding, which may carry one or two padding characters. */
  function DecodeLast(q: string): (r: Option<seq<Byte>>)
    requires |q| == 4
    ensures r.Some? ==> 1 <= |r.value| <= 3
  {
    if q[2] == Pad && q[3] == Pad then
      match (Value(q[0]), Value(q[1]))
      case (Some(v0), Some(v1)) => Some([v0 * 4 + v1 / 16])
      case _ => None
    else if q[3] == Pad then
      match (Value(q[0]), Value(q[1]), Value(q[2]))
      case (Some(v0), Some(v1), Some(v2)) => Some([v0 * 4 + v1 / 16, v1 % 16 * 16 + v2 / 4])
      case _ => None
    else DecodeGroup(q)
  }

  function Decode(s: string): (r: Option<seq<Byte>>)
    decreases |s|
  {
    if |s| == 0 then Some([])
    else if |s| < 4 then None
    else if |s| == 4 then DecodeLast(s)
    else
      match (DecodeGroup(s[..4]), Decode(s[4..]))
      case (Some(g), Some(rest)) => Some(g + rest)
      case _ => None
  }

  /** Two 6-bit values that share one octet: the upper one's low four bits and the next octet's top four. */
  lemma SplitAtSixteen(q: nat, r: nat)
    requires r < 16
    ensures (q * 16 + r) / 16 == q && (q * 16 + r) % 16 == r
  {
  }

  lemma SplitAtFour(q: nat, r: nat)
    requires r < 4
    ensures (q * 4 + r) / 4 == q && (q * 4 + r) % 4 == r
  {
  }

  lemma GroupRoundTrip(a: Byte, b: Byte, c: Byte)
    ensures DecodeGroup(EncodeGroup(a, b, c)) == Some([a, b, c])
  {
    var v0, v1, v2, v3 := a / 4, a % 4 * 16 + b / 16, b % 16 * 4 + c / 64, c % 64;
    ValueOfDigit(v0);
    ValueOfDigit(v1);
    ValueOfDigit(v2);
    ValueOfDigit(v3);
    SplitAtSixteen(a % 4, b / 16);
    SplitAtFour(b % 16, c / 64);
    assert v0 * 4 + v1 / 16 == a;
    assert v1 % 16 * 16 + v2 / 4 == b;
    assert v2 % 4 * 64 + v3 == c;
  }

  lemma LastOfOneRoundTrip(a: Byte)
    ensures DecodeLast([Digit(a / 4), Digit(a % 4 * 16), Pad, Pad]) == Some([a])
  {
    ValueOfDigit(a / 4);
    ValueOfDigit(a % 4 * 16);
  }

  lemma LastOfTwoRoundTrip(a: Byte, b: Byte)
    ensures DecodeLast([Digit(a / 4), Digit(a % 4 * 16 + b / 16), Digit(b % 16 * 4), Pad]) == Some([a, b])
  {
    var v0, v1, v2 := a / 4, a % 4 * 16 + b / 16, b % 16 * 4;
    ValueOfDigit(v0);
    ValueOfDigit(v1);
    ValueOfDigit(v2);
    SplitAtSixteen(a % 4, b / 16);
    assert Digit(v2) != Pad;
  }

  lemma LastOfThreeRoundTrip(a: Byte, b: Byte, c: Byte)
    ensures DecodeLast(EncodeGroup(a, b, c)) == Some([a, b, c])
  {
    GroupRoundTrip(a, b, c);
    ValueOfDigit(c % 64);
  }

  /** An encoding longer than one group decodes group by group. */
  lemma DecodeLonger(g: string, rest: string)
    requires |g| == 4 && |rest| > 0
    ensures Decode(g + rest) ==
      match (DecodeGroup(g), Decode(rest))
      case (Some(x), Some(y)) => Some(x + y)
      case _ => None
  {
    var e := g + rest;
    assert e[..4] == g && e[4..] == rest;
  }

  /** Decoding an encoding gives back the octets that were encoded. */
  lemma {:induction false} DecodeEncode(s: seq<Byte>)
    ensures Decode(Encode(s)) == Some(s)
    decreases |s|
  {
    if |s| == 1 {
      var e := Encode(s);
      LastOfOneRoundTrip(s[0]);
      assert Decode(e) == DecodeLast(e);
      assert [s[0]] == s;
    } else if |s| == 2 {
      var e := Encode(s);
      LastOfTwoRoundTrip(s[0], s[1]);
      assert Decode(e) == DecodeLast(e);
      assert [s[0], s[1]] == s;
    } else if |s| >= 3 {
      var g := EncodeGroup(s[0], s[1], s[2]);
      assert Encode(s) == g + Encode(s[3..]);
      assert s == [s[0], s[1], s[2]] + s[3..];
      if |s| == 3 {
        LastOfThreeRoundTrip(s[0], s[1], s[2]);
        assert Encode(s[3..]) == [];
        assert Encode(s) == g && s == [s[0], s[1], s[2]];
        assert Decode(g) == DecodeLast(g);
      } else {
        GroupRoundTrip(s[0], s[1], s[2]);
        DecodeEncode(s[3..]);
        DecodeLonger(g, Encode(s[3..]));
      }
    }
  }

  /** Three leading octets are encoded as one group, ahead of the rest. */
  lemma EncodeFirstGroup(s: seq<Byte>)
    requires |s| >= 3
    ensures Encode(s) == EncodeGroup(s[0], s[1], s[2]) + Encode(s[3..])
  {
  }

  /** The octets of the credential of RFC 7617 section 2, `Aladdin:open sesame`. */
  const AladdinOctets: seq<Byte> :=
    [65, 108, 97, 100, 100, 105, 110, 58, 111, 112, 101, 110, 32, 115, 101, 115, 97, 109, 101]

  lemma AladdinOctetsOfText()
    ensures IsByteString("Aladdin:open sesame")
    ensures ToBytes("Aladdin:open sesame") == AladdinOctets
  {
  }

  /** The groups of the example, one at a time. */
  lemma AladdinGroups()
    ensures EncodeGroup(65, 108, 97) == "QWxh" && EncodeGroup(100, 100, 105) == "ZGRp"
    ensures EncodeGroup(110, 58, 111) == "bjpv" && EncodeGroup(112, 101, 110) == "cGVu"
    ensures EncodeGroup(32, 115, 101) == "IHNl" && EncodeGroup(115, 97, 109) == "c2Ft"
    ensures Encode([101]) == "ZQ=="
  {
  }

  /** The encoding of the example octets, group by group. */
  lemma AladdinOctetsEncoding()
    ensures Encode(AladdinOctets) == "QWxh" + ("ZGRp" + ("bjpv" + ("cGVu" + ("IHNl" + ("c2Ft" + "ZQ==")))))
  {
    AladdinGroups();
    var b := AladdinOctets;
    var e5 := Encode(b[18..]);
    assert b[18..] == [101];
    EncodeFirstGroup(b[15..]);
    assert b[15..][3..] == b[18..];
    var e4 := Encode(b[15..]);
    assert e4 == "c2Ft" + e5;
    EncodeFirstGroup(b[12..]);
    assert b[12..][3..] == b[15..];
    var e3 := Encode(b[12..]);
    assert e3 == "IHNl" + e4;
    EncodeFirstGroup(b[9..]);
    assert b[9..][3..] == b[12..];
    var e2 := Encode(b[9..]);
    assert e2 == "cGVu" + e3;
    EncodeFirstGroup(b[6..]);
    assert b[6..][3..] == b[9..];
    var e1 := Encode(b[6..]);
    assert e1 == "bjpv" + e2;
    EncodeFirstGroup(b[3..]);
    assert b[3..][3..] == b[6..];
    var e0 := Encode(b[3..]);
    assert e0 == "ZGRp" + e1;
    EncodeFirstGroup(b);
  }

  /**
   * The example of RFC 7617 section 2: user-id `Aladdin`, password
   * `open sesame`, encoded with this alphabet and padding.
   */
  lemma AladdinExample()
    ensures IsByteString("Aladdin:open sesame")
    ensures Encode(ToBytes("Aladdin:open sesame")) == "QWxhZGRpbjpvcGVuIHNlc2FtZQ=="
  {
    AladdinOctetsOfText();
    AladdinOctetsEncoding();
    AladdinText();
  }

  lemma AladdinText()
    ensures "QWxh" + ("ZGRp" + ("bjpv" + ("cGVu" + ("IHNl" + ("c2Ft" + "ZQ==")))))
         == "QWxhZGRpbjpvcGVuIHNlc2FtZQ=="
  {
  }
}
