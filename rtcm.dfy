/**
 * Best-effort inspection of an RTCM 3 transport frame, as the relay does it
 * for its status line: preamble 0xD3, then a 16-bit big-endian word whose low
 * 10 bits are the payload length (RTCM Standard 10403, section 4, Transport
 * Layer), then the 12-bit message number in the top bits of the next word.
 */
module Rtcm {
  import opened Bytes

  /** The chunk returned by one read of the caster socket. */
  type Frame = seq<Byte>

  const Preamble: Byte := 0xD3

  /** What the relay logs about a received chunk. */
  datatype Report =
    | Message(number: nat, length: nat)  // chunk starts with the preamble
    | Unframed(first: Byte)              // any other chunk: only its first byte is logged

  /**
   * The chunks the inspection can read without running off the end: a
   * chunk that starts with the preamble must hold the five header bytes.
   */
  predicate Inspectable(f: Frame) {
    |f| > 0 && (f[0] == Preamble ==> |f| >= 5)
  }

  /**
   * The length the relay reports: bytes 1 and 2 read as one big-endian
   * 16-bit word, the six reserved bits included.
   */
  function ReportedLength(f: Frame): (n: nat)
    requires |f| >= 3
    ensures n < 0x1_0000
    ensures n / 256 == f[1] && n % 256 == f[2]
  {
    256 * (f[1] as int) + f[2]
  }

  /** The message number: bytes 3 and 4 as a big-endian word, divided by 16. */
  function MessageNumber(f: Frame): (n: nat)
    requires |f| >= 5
    ensures n < 4096
    ensures n / 16 == f[3] && n % 16 == f[4] / 16
  {
    (256 * (f[3] as int) + f[4]) / 16
  }

  /** The 10-bit length field of the standard: the low two bits of byte 1, then byte 2. */
  function PayloadLength(f: Frame): (n: nat)
    requires |f| >= 3
    ensures n < 1024
  {
    (f[1] as int % 4) * 256 + f[2]
  }

  /** The six reserved bits that precede the length field. */
  function ReservedBits(f: Frame): (r: nat)
    requires |f| >= 2
    ensures r < 64
  {
    f[1] / 4
  }

  /** The status report for one non-empty chunk. */
  function Inspect(f: Frame): (r: Report)
    requires Inspectable(f)
    ensures r.Message? <==> f[0] == Preamble
    ensures r.Unframed? ==> r.first == f[0]
    ensures r.Message? ==> r.number < 4096 && r.length < 0x1_0000
    ensures r.Message? ==> r.number == MessageNumber(f) && r.length == ReportedLength(f)
  {
    if f[0] == Preamble then Message(MessageNumber(f), ReportedLength(f)) else Unframed(f[0])
  }

  /**
   * A header written the way the standard lays it out: preamble, six zero
   * reserved bits, the 10-bit length, the 12-bit number and four further
   * bits of the message body.
   */
  function Header(length: nat, number: nat, low: nat): (h: Frame)
    requires length < 1024 && number < 4096 && low < 16
    ensures |h| == 5 && h[0] == Preamble
  {
    [Preamble, length / 256, length % 256, number / 16, (number % 16) * 16 + low]
  }

  /** Inspecting a standard header gives back the number and the length it was written with. */
  lemma InspectHeader(length: nat, number: nat, low: nat, body: Frame)
    requires length < 1024 && number < 4096 && low < 16
    ensures Inspectable(Header(length, number, low) + body)
    ensures Inspect(Header(length, number, low) + body) == Message(number, length)
  {
    var f := Header(length, number, low) + body;
    assert f[1] == length / 256 && f[2] == length % 256;
    assert f[3] == number / 16 && f[4] == (number % 16) * 16 + low;
    assert 256 * (f[3] as int) + f[4] == 16 * number + low;
  }

  /**
   * The reported length is the standard's 10-bit length exactly when the
   * reserved bits are clear; otherwise it is not a 10-bit value at all.
   */
  lemma ReportedLengthVersusStandard(f: Frame)
    requires |f| >= 3
    ensures ReportedLength(f) == PayloadLength(f) <==> ReservedBits(f) == 0
    ensures ReservedBits(f) != 0 ==> ReportedLength(f) >= 1024
  {
  }

  /** The worked example: D3 00 13 3E D0 is message 1005 with 19 payload bytes. */
  lemma Message1005Example()
    ensures Inspect([0xD3, 0x00, 0x13, 0x3E, 0xD0]) == Message(1005, 19)
  {
  }
}
