/** DNP3 data-link frames: extraction of the payload and reconstruction. */
module Dnp3 {
  import opened Bytes
  import opened Crc

  datatype Header = Header(length: byte, control: byte, destination: u16, source: u16, crc: u16)

  datatype DnpError =
    | TooShort(have: nat)
    | BadStartBytes(b0: byte, b1: byte)
    | HeaderCrcMismatch(expected: u16, got: u16)
    | InsufficientPayload(declared: nat, available: nat)

  /** A length field below five makes the payload slice end before it starts, which panics. */
  datatype Outcome = Extracted(header: Header, payload: seq<byte>) | Refused(error: DnpError) | SlicePanic

  function LittleEndian(lo: byte, hi: byte): u16 {
    lo + 256 * hi
  }

  /** Little-endian bytes of a word. */
  function LE(x: u16): (s: seq<byte>)
    ensures |s| == 2 && LittleEndian(s[0], s[1]) == x
  {
    [x % 256, x / 256]
  }

  lemma LEOfBytes(lo: byte, hi: byte)
    ensures LE(LittleEndian(lo, hi)) == [lo, hi]
  {
  }

  function HeaderOf(buf: seq<byte>): Header
    requires |buf| >= 10
  {
    Header(buf[2], buf[3], LittleEndian(buf[4], buf[5]), LittleEndian(buf[6], buf[7]), LittleEndian(buf[8], buf[9]))
  }

  function Extract(buf: seq<byte>): Outcome {
    if |buf| < 10 then Refused(TooShort(|buf|))
    else if buf[0..2] != [0x05, 0x64] then Refused(BadStartBytes(buf[0], buf[1]))
    else Judged(buf, HeaderOf(buf), Crc16(buf[2..8]))
  }

  /** The verdict on a header whose CRC should be `expected`. */
  function Judged(buf: seq<byte>, h: Header, expected: u16): Outcome {
    if expected != h.crc then Refused(HeaderCrcMismatch(expected, h.crc))
    else if |buf| < h.length + 5 then Refused(InsufficientPayload(h.length + 5, |buf|))
    else if h.length < 5 then SlicePanic
    else Extracted(h, buf[10..h.length + 5])
  }

  /** The six header bytes the CRC covers. */
  function HeaderBody(length: byte, control: byte, destination: u16, source: u16): (s: seq<byte>)
    ensures |s| == 6
  {
    [length, control] + LE(destination) + LE(source)
  }

  function Framed(body: seq<byte>, payload: seq<byte>): seq<byte> {
    [0x05, 0x64] + body + LE(Crc16(body)) + payload
  }

  /** The length field is the payload length plus five, narrowed to a byte. */
  function Reconstruct(h: Header, payload: seq<byte>): seq<byte> {
    Framed(HeaderBody((|payload| + 5) % 256, h.control, h.destination, h.source), payload)
  }

  method ExtractPayload(table: array<u16>, buf: seq<byte>) returns (out: Outcome)
    requires IsTable(table)
    ensures out == Extract(buf)
  {
    if |buf| < 10 {
      return Refused(TooShort(|buf|));
    }
    if buf[0..2] != [0x05, 0x64] {
      return Refused(BadStartBytes(buf[0], buf[1]));
    }
    var header := HeaderOf(buf);
    var expected := CrcByTable(table, buf[2..8]);
    out := Judge(buf, header, expected);
  }

  method Judge(buf: seq<byte>, header: Header, expected: u16) returns (out: Outcome)
    ensures out == Judged(buf, header, expected)
  {
    if expected != header.crc {
      return Refused(HeaderCrcMismatch(expected, header.crc));
    }
    var frameLen := header.length + 5;
    if |buf| < frameLen {
      return Refused(InsufficientPayload(frameLen, |buf|));
    }
    if frameLen < 10 {
      return SlicePanic;
    }
    return Extracted(header, buf[10..frameLen]);
  }

  method ReconstructFrame(table: array<u16>, h: Header, payload: seq<byte>) returns (frame: seq<byte>)
    requires IsTable(table)
    ensures frame == Reconstruct(h, payload)
  {
    var length: byte := (|payload| + 5) % 256;
    var destination, source := LE(h.destination), LE(h.source);
    var body: seq<byte> := [length, h.control, destination[0], destination[1], source[0], source[1]];
    assert body == HeaderBody(length, h.control, h.destination, h.source);
    var crc := CrcByTable(table, body);
    frame := [0x05, 0x64];
    frame := frame + body;
    frame := frame + LE(crc);
    frame := frame + payload;
  }

  lemma FrameLayout(body: seq<byte>, payload: seq<byte>)
    requires |body| == 6
    ensures var f := Framed(body, payload);
            && |f| == 10 + |payload| && f[0..2] == [0x05, 0x64] && f[2..8] == body
            && f[8..10] == LE(Crc16(body)) && f[10..] == payload
  {
  }

  lemma HeaderFields(buf: seq<byte>, length: byte, control: byte, destination: u16, source: u16, crc: u16)
    requires |buf| >= 10 && buf[2..8] == HeaderBody(length, control, destination, source) && buf[8..10] == LE(crc)
    ensures HeaderOf(buf) == Header(length, control, destination, source, crc)
  {
    var body := buf[2..8];
    assert forall k :: 0 <= k < 6 ==> buf[2 + k] == body[k];
    assert buf[8] == buf[8..10][0] && buf[9] == buf[8..10][1];
  }

  /** What extraction makes of a reconstructed frame: the payload, cut where the narrowed length says. */
  lemma ExtractReconstructed(h: Header, payload: seq<byte>)
    ensures var length: byte := (|payload| + 5) % 256;
            var crc := Crc16(HeaderBody(length, h.control, h.destination, h.source));
            Extract(Reconstruct(h, payload)) ==
              if length < 5 then SlicePanic
              else Extracted(Header(length, h.control, h.destination, h.source, crc), payload[..length - 5])
  {
    var length: byte := (|payload| + 5) % 256;
    var body := HeaderBody(length, h.control, h.destination, h.source);
    var frame := Framed(body, payload);
    FrameLayout(body, payload);
    HeaderFields(frame, length, h.control, h.destination, h.source, Crc16(body));
    if length >= 5 {
      assert frame[10..length + 5] == frame[10..][..length - 5];
    }
  }

  /** The payload survives reconstruction and extraction exactly when it has at most 250 bytes. */
  lemma PayloadRoundTrip(h: Header, payload: seq<byte>)
    ensures (Extract(Reconstruct(h, payload)).Extracted? && Extract(Reconstruct(h, payload)).payload == payload)
            <==> |payload| <= 250
  {
    ExtractReconstructed(h, payload);
  }

  /** The shortest payloads that do not survive: their narrowed length falls below five. */
  lemma LongPayloadPanics(h: Header, payload: seq<byte>)
    requires 251 <= |payload| <= 255
    ensures Extract(Reconstruct(h, payload)) == SlicePanic
  {
    ExtractReconstructed(h, payload);
  }

  /** Reconstruction from an extracted header and payload is the frame that was received. */
  lemma ReconstructExtracted(buf: seq<byte>)
    requires Extract(buf).Extracted?
    ensures Reconstruct(Extract(buf).header, Extract(buf).payload) == buf[..Extract(buf).header.length + 5]
  {
    var h := HeaderOf(buf);
    LEOfBytes(buf[4], buf[5]);
    LEOfBytes(buf[6], buf[7]);
    LEOfBytes(buf[8], buf[9]);
    assert buf[2..8] == HeaderBody(h.length, h.control, h.destination, h.source);
    assert buf[8..10] == LE(h.crc);
    Recut(buf, h.length + 5);
  }

  lemma Recut(buf: seq<byte>, n: nat)
    requires 10 <= n <= |buf|
    ensures buf[..n] == buf[0..2] + buf[2..8] + buf[8..10] + buf[10..n]
  {
  }

  lemma FieldOfHeader(buf: seq<byte>)
    requires |buf| >= 10
    ensures HeaderOf(buf).crc == LittleEndian(buf[8], buf[9]) && HeaderOf(buf).crc / 256 == buf[9]
  {
  }

  /** A changed body with a CRC field changed at most in its low byte. */
  lemma BodyChangeDetected(buf: seq<byte>, bad: seq<byte>, i: nat)
    requires |buf| >= 10 && |bad| >= 10 && Crc16(buf[2..8]) == HeaderOf(buf).crc && Crc16(bad[2..8]) == HeaderOf(bad).crc
    requires DifferWithin(buf[2..8], bad[2..8], i) && bad[9] == buf[9] && (i != 5 ==> bad[8] == buf[8])
    ensures bad[2..8] == buf[2..8]
  {
    FieldOfHeader(buf);
    FieldOfHeader(bad);
    if i == 5 {
      assert buf[2..8][..5] == bad[2..8][..5];
      LastByteInHigh(buf[2..8], bad[2..8], 5);
    } else {
      BurstDetected(buf[2..8], bad[2..8], i);
    }
  }

  lemma SplitField(buf: seq<byte>, bad: seq<byte>, i: nat)
    requires |buf| >= 10 && |bad| >= 10 && DifferWithin(buf[2..10], bad[2..10], i)
    ensures DifferWithin(buf[2..8], bad[2..8], i)
    ensures i < 5 ==> bad[8] == buf[8] && bad[9] == buf[9]
    ensures i == 5 ==> bad[9] == buf[9]
    ensures i > 5 ==> bad[2..8] == buf[2..8]
    ensures bad[2..8] == buf[2..8] && HeaderOf(bad).crc == HeaderOf(buf).crc ==> bad[2..10] == buf[2..10]
  {
    assert forall k :: 0 <= k < 6 ==> buf[2..8][k] == buf[2..10][k] && bad[2..8][k] == bad[2..10][k];
    assert buf[2..10] == buf[2..8] + [buf[8], buf[9]] && bad[2..10] == bad[2..8] + [bad[8], bad[9]];
    LEOfBytes(buf[8], buf[9]);
    LEOfBytes(bad[8], bad[9]);
  }

  /** No change confined to two adjacent header bytes is accepted, be it in the body, in the CRC field or across both. */
  lemma TamperedHeaderRefused(buf: seq<byte>, bad: seq<byte>, i: nat)
    requires Extract(buf).Extracted? && |bad| >= 10 && bad[0..2] == buf[0..2]
    requires bad[2..10] != buf[2..10] && DifferWithin(buf[2..10], bad[2..10], i)
    ensures Extract(bad).Refused? && Extract(bad).error.HeaderCrcMismatch?
  {
    SplitField(buf, bad, i);
    if Crc16(bad[2..8]) == HeaderOf(bad).crc {
      if i <= 5 {
        BodyChangeDetected(buf, bad, i);
      }
      assert false;
    }
  }
}
