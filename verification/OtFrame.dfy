/** The OT envelope: framing of one PDU, sequence numbers and the replay window. */
module OtFrame {
  import opened Bytes

  type u64 = x: nat | x < 0x1_0000_0000_0000_0000

  datatype Protocol = ModbusTcp | Dnp3

  function Code(p: Protocol): byte {
    match p case ModbusTcp => 0x01 case Dnp3 => 0x02
  }

  function FromCode(b: byte): Option<Protocol> {
    if b == 0x01 then Some(ModbusTcp) else if b == 0x02 then Some(Dnp3) else None
  }

  type DeviceKey = (Protocol, u64)

  datatype OtAad = OtAad(protocol: Protocol, device: u64, seqno: u64) {
    function Key(): DeviceKey { (protocol, device) }
  }

  datatype FrameError =
    | AuthenticationFailed(aad: OtAad)
    | ReplayDetected(aad: OtAad, lastSeen: u64)
    | MalformedEnvelope
    | CryptoError

  /** The associated data of a frame, byte for byte. */
  function AadBytes(a: OtAad): (s: seq<byte>)
    ensures |s| == 17
  {
    [Code(a.protocol)] + BE(a.device, 8) + BE(a.seqno, 8)
  }

  function Envelope(a: OtAad, blob: seq<byte>): seq<byte> {
    [0x4E, 0x51] + AadBytes(a) + BE(|blob|, 4) + blob
  }

  /** A block cipher under one device's key. */
  datatype Cipher = Cipher(
    seal: (seq<scalar>, seq<byte>) -> Option<seq<byte>>,
    unseal: (seq<byte>, seq<byte>) -> Option<seq<scalar>>)
  {
    ghost predicate Sound() {
      forall m, a :: seal(m, a).Some? ==>
        |seal(m, a).value| < 0x1_0000_0000 && unseal(seal(m, a).value, a) == Some(m)
    }
  }

  /** Bytes as the codepoints U+0000 to U+00FF. */
  function Latin1(pdu: seq<byte>): (s: seq<scalar>)
    ensures |s| == |pdu| && forall i :: 0 <= i < |s| ==> s[i] == pdu[i]
  {
    seq(|pdu|, (i: nat) requires i < |pdu| => pdu[i] as scalar)
  }

  /** Back to bytes; a codepoint above U+00FF is refused. */
  function FromLatin1(s: seq<scalar>): Option<seq<byte>> {
    if exists i :: 0 <= i < |s| && s[i] > 0xFF then None
    else Some(seq(|s|, (i: nat) requires i < |s| => if s[i] <= 0xFF then s[i] as byte else 0))
  }

  lemma Latin1Inverse(pdu: seq<byte>)
    ensures FromLatin1(Latin1(pdu)) == Some(pdu)
  {
    assert FromLatin1(Latin1(pdu)).value == pdu;
  }

  function Wrapped(cipher: Cipher, a: OtAad, pdu: seq<byte>): Result<seq<byte>, FrameError> {
    match cipher.seal(Latin1(pdu), AadBytes(a))
    case None => Err(CryptoError)
    case Some(blob) => Ok(Envelope(a, blob))
  }

  method WrapPdu(cipher: Cipher, a: OtAad, pdu: seq<byte>) returns (res: Result<seq<byte>, FrameError>)
    ensures res == Wrapped(cipher, a, pdu)
  {
    var aadBytes := AadBytes(a);
    var blob := cipher.seal(Latin1(pdu), aadBytes);
    if blob.None? {
      return Err(CryptoError);
    }
    var envelope := [0x4E, 0x51];
    envelope := envelope + [Code(a.protocol)];
    envelope := envelope + BE(a.device, 8);
    envelope := envelope + BE(a.seqno, 8);
    envelope := envelope + BE(|blob.value|, 4);
    envelope := envelope + blob.value;
    assert envelope == Envelope(a, blob.value);
    return Ok(envelope);
  }

  function Word64(s: seq<byte>): u64
    requires |s| == 8
  {
    FromBEBound(s);
    FieldSizes();
    FromBE(s)
  }

  /** The parsed header and the blob it delimits; bytes after the blob are ignored. */
  function Parse(buf: seq<byte>): Result<(OtAad, seq<byte>), FrameError> {
    if |buf| < 23 then Err(MalformedEnvelope)
    else if buf[0..2] != [0x4E, 0x51] then Err(MalformedEnvelope)
    else match FromCode(buf[2])
      case None => Err(MalformedEnvelope)
      case Some(protocol) =>
        var length := FromBE(buf[19..23]);
        if |buf| < 23 + length then Err(MalformedEnvelope)
        else Ok((OtAad(protocol, Word64(buf[3..11]), Word64(buf[11..19])), buf[23..23 + length]))
  }

  // ----- Framing -----

  /** Where the fields of an envelope lie. */
  predicate FieldsAt(m: seq<byte>, p: byte, d: seq<byte>, q: seq<byte>, l: seq<byte>, blob: seq<byte>, buf: seq<byte>) {
    && |buf| >= 23 + |blob| && buf[0..2] == m && buf[2] == p && buf[3..11] == d && buf[11..19] == q
    && buf[19..23] == l && buf[23..23 + |blob|] == blob
  }

  lemma Cut(m: seq<byte>, p: byte, d: seq<byte>, q: seq<byte>, l: seq<byte>, blob: seq<byte>, buf: seq<byte>)
    requires |m| == 2 && |d| == |q| == 8 && |l| == 4
    requires m + ([p] + d + q) + l + blob <= buf
    ensures FieldsAt(m, p, d, q, l, blob, buf)
  {
    var e := m + ([p] + d + q) + l + blob;
    assert e[0..2] == m && e[2] == p && e[3..11] == d && e[11..19] == q && e[19..23] == l && e[23..] == blob;
    Inside(e, buf, 0, 2);
    Inside(e, buf, 3, 11);
    Inside(e, buf, 11, 19);
    Inside(e, buf, 19, 23);
    Inside(e, buf, 23, |e|);
  }

  lemma Inside(e: seq<byte>, buf: seq<byte>, i: nat, j: nat)
    requires e <= buf && i <= j <= |e|
    ensures buf[i..j] == e[i..j]
  {
  }

  lemma Join(m: seq<byte>, p: byte, d: seq<byte>, q: seq<byte>, l: seq<byte>, blob: seq<byte>, buf: seq<byte>)
    requires FieldsAt(m, p, d, q, l, blob, buf)
    ensures m + ([p] + d + q) + l + blob <= buf
  {
    assert buf[0..3] == buf[0..2] + [buf[2]];
    assert buf[..11] == buf[0..3] + buf[3..11];
    assert buf[..19] == buf[..11] + buf[11..19];
    assert buf[..23] == buf[..19] + buf[19..23];
    assert buf[..23 + |blob|] == buf[..23] + buf[23..23 + |blob|];
    assert m + ([p] + d + q) + l + blob == m + [p] + d + q + l + blob;
  }

  lemma EnvelopeFields(a: OtAad, blob: seq<byte>, buf: seq<byte>)
    ensures Envelope(a, blob) <= buf <==>
            FieldsAt([0x4E, 0x51], Code(a.protocol), BE(a.device, 8), BE(a.seqno, 8), BE(|blob|, 4), blob, buf)
  {
    if Envelope(a, blob) <= buf {
      Cut([0x4E, 0x51], Code(a.protocol), BE(a.device, 8), BE(a.seqno, 8), BE(|blob|, 4), blob, buf);
    } else if FieldsAt([0x4E, 0x51], Code(a.protocol), BE(a.device, 8), BE(a.seqno, 8), BE(|blob|, 4), blob, buf) {
      Join([0x4E, 0x51], Code(a.protocol), BE(a.device, 8), BE(a.seqno, 8), BE(|blob|, 4), blob, buf);
    }
  }

  lemma ReadHeader(a: OtAad, blob: seq<byte>)
    requires |blob| < 0x1_0000_0000
    ensures FromBE(BE(a.device, 8)) == a.device && FromBE(BE(a.seqno, 8)) == a.seqno
    ensures FromBE(BE(|blob|, 4)) == |blob|
  {
    FieldSizes();
    ReadBack(a.device, 8);
    ReadBack(a.seqno, 8);
    ReadBack(|blob|, 4);
  }

  /** A buffer parses to a header and blob exactly when it starts with their envelope. */
  lemma ParseExactly(buf: seq<byte>, a: OtAad, blob: seq<byte>)
    requires |blob| < 0x1_0000_0000
    ensures Parse(buf) == Ok((a, blob)) <==> Envelope(a, blob) <= buf
  {
    EnvelopeFields(a, blob, buf);
    if Envelope(a, blob) <= buf {
      ReadHeader(a, blob);
    } else if Parse(buf) == Ok((a, blob)) {
      WriteBack(buf[3..11]);
      WriteBack(buf[11..19]);
      WriteBack(buf[19..23]);
    }
  }

  lemma BlobBound(buf: seq<byte>)
    ensures Parse(buf).Ok? ==> |Parse(buf).value.1| < 0x1_0000_0000
  {
    if |buf| >= 23 {
      FromBEBound(buf[19..23]);
      FieldSizes();
    }
  }

  lemma AadInjective(a: OtAad, b: OtAad)
    requires AadBytes(a) == AadBytes(b)
    ensures a == b
  {
    var s, t := AadBytes(a), AadBytes(b);
    assert s[1..9] == BE(a.device, 8) && s[9..17] == BE(a.seqno, 8) && s[0] == Code(a.protocol);
    assert t[1..9] == BE(b.device, 8) && t[9..17] == BE(b.seqno, 8) && t[0] == Code(b.protocol);
    FieldSizes();
    BEInjective(a.device, b.device, 8);
    BEInjective(a.seqno, b.seqno, 8);
  }

  // ----- Verification, which reads no shared state -----

  datatype Frame = Frame(aad: OtAad, pdu: seq<byte>)

  /** The PDU of an authenticated envelope, before the replay window is consulted. */
  function Verified(cipher: Cipher, buf: seq<byte>): Result<Frame, FrameError> {
    match Parse(buf)
    case Err(e) => Err(e)
    case Ok((a, blob)) => match cipher.unseal(blob, AadBytes(a))
      case None => Err(AuthenticationFailed(a))
      case Some(text) => match FromLatin1(text)
        case None => Err(AuthenticationFailed(a))
        case Some(pdu) => Ok(Frame(a, pdu))
  }

  /** Every wrapped frame verifies to itself, whatever follows it in the buffer. */
  lemma VerifyWrapped(cipher: Cipher, f: Frame, rest: seq<byte>)
    requires cipher.Sound() && Wrapped(cipher, f.aad, f.pdu).Ok?
    ensures Verified(cipher, Wrapped(cipher, f.aad, f.pdu).value + rest) == Ok(f)
  {
    var blob := cipher.seal(Latin1(f.pdu), AadBytes(f.aad)).value;
    ParseExactly(Envelope(f.aad, blob) + rest, f.aad, blob);
    Latin1Inverse(f.pdu);
  }

  // ----- Sequence numbers -----

  type Window = map<DeviceKey, u64>

  function Last(w: Window, k: DeviceKey): u64 {
    if k in w then w[k] else 0
  }

  /** The window after a number is offered; a refusal may leave a zero entry behind. */
  function Admit(w: Window, a: OtAad): Window {
    if a.seqno <= Last(w, a.Key()) then w[a.Key() := Last(w, a.Key())] else w[a.Key() := a.seqno]
  }

  /** What the sending side has numbered. */
  datatype Sender = Sender(last: Window, issued: seq<OtAad>, poisoned: bool)

  /** The increment panics at the top of the range and poisons the lock. */
  function Number(s: Sender, k: DeviceKey): Sender {
    if s.poisoned then s
    else if Last(s.last, k) == 0xFFFF_FFFF_FFFF_FFFF then s.(last := s.last[k := Last(s.last, k)], poisoned := true)
    else
      var next: u64 := Last(s.last, k) + 1;
      Sender(s.last[k := next], s.issued + [OtAad(k.0, k.1, next)], false)
  }

  function Issue(requests: seq<DeviceKey>): Sender {
    if requests == [] then Sender(map[], [], false)
    else Number(Issue(requests[..|requests| - 1]), requests[|requests| - 1])
  }

  class SequenceCounter {
    var sendState: Window
    var poisoned: bool
    var recvState: Window

    constructor ()
      ensures sendState == map[] && recvState == map[] && !poisoned
    {
      sendState, recvState, poisoned := map[], map[], false;
    }

    /** The next number to send under; `None` is a panic. */
    method NextSeq(protocol: Protocol, device: u64) returns (r: Option<u64>)
      modifies this`sendState, this`poisoned
      ensures var k := (protocol, device);
              var after := Number(Sender(old(sendState), [], old(poisoned)), k);
              && sendState == after.last && poisoned == after.poisoned
              && (r.None? <==> poisoned)
              && (r.Some? ==> r.value == Last(old(sendState), k) + 1 && after.issued == [OtAad(protocol, device, r.value)])
    {
      if poisoned {
        return None;
      }
      var k := (protocol, device);
      if k !in sendState {
        sendState := sendState[k := 0];
      }
      if sendState[k] == 0xFFFF_FFFF_FFFF_FFFF {
        poisoned := true;
        return None;
      }
      sendState := sendState[k := sendState[k] + 1];
      return Some(sendState[k]);
    }

    /** Accept a number above the last one seen, and record it. */
    method ValidateRecv(a: OtAad) returns (res: Option<FrameError>)
      modifies this`recvState
      ensures recvState == Admit(old(recvState), a)
      ensures res == if a.seqno > Last(old(recvState), a.Key()) then None
                     else Some(ReplayDetected(a, Last(old(recvState), a.Key())))
    {
      var k := a.Key();
      if k !in recvState {
        recvState := recvState[k := 0];
      }
      var last := recvState[k];
      if a.seqno <= last {
        return Some(ReplayDetected(a, last));
      }
      recvState := recvState[k := a.seqno];
      return None;
    }
  }

  /** Only an authenticated number reaches the window. */
  method UnwrapPdu(cipher: Cipher, buf: seq<byte>, counters: SequenceCounter) returns (res: Result<seq<byte>, FrameError>)
    modifies counters`recvState
    ensures Verified(cipher, buf).Err? ==>
              res == Err(Verified(cipher, buf).error) && counters.recvState == old(counters.recvState)
    ensures Verified(cipher, buf).Ok? ==>
              var f := Verified(cipher, buf).value;
              var last := Last(old(counters.recvState), f.aad.Key());
              && counters.recvState == Admit(old(counters.recvState), f.aad)
              && res == if f.aad.seqno > last then Ok(f.pdu) else Err(ReplayDetected(f.aad, last))
  {
    var parsed := Parse(buf);
    if parsed.Err? {
      return Err(parsed.error);
    }
    var (a, blob) := parsed.value;
    var text := cipher.unseal(blob, AadBytes(a));
    if text.None? {
      return Err(AuthenticationFailed(a));
    }
    var pdu := FromLatin1(text.value);
    if pdu.None? {
      return Err(AuthenticationFailed(a));
    }
    var refused := counters.ValidateRecv(a);
    if refused.Some? {
      return Err(refused.value);
    }
    return Ok(pdu.value);
  }
}
