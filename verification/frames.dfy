// Frames of the serial link: COBS(CMD | DIR | LEN_H | LEN_L | DATA) | CRC8 | 0x00.
// The CRC byte is outside the stuffed block, so a CRC of 0 looks like the delimiter.
module Frames {
  import opened Words
  import opened Cobs
  import opened CobsDecode
  import opened Crc8

  const DELIMITER: byte := 0x00
  const MAX_DATA_LEN := 64
  const MAX_FRAME_LEN := MAX_DATA_LEN + 4
  const MAX_COBS_LEN := MAX_FRAME_LEN + MAX_FRAME_LEN / 254 + 3

  datatype Frame = Frame(cmd: byte, dir: byte, data: seq<byte>)

  function Payload(f: Frame): seq<byte> {
    [f.cmd, f.dir, |f.data| / 256 % 256, |f.data| % 256] + f.data
  }

  /** The bytes of a frame on the wire. */
  function Wire(f: Frame): seq<byte> {
    Encode(Payload(f)) + [Crc(Payload(f)), DELIMITER]
  }

  predicate Sendable(f: Frame) { |f.data| <= MAX_DATA_LEN }

  // ---- encoders ----

  /** frame_encode of the firmware: 0 when the data or the frame does not fit. */
  method EncodeFrame(f: Frame, out: array<byte>, capacity: nat) returns (total: nat)
    requires |f.data| < 0x1_0000 && capacity <= out.Length
    modifies out
    ensures total == if Sendable(f) && |Wire(f)| <= capacity then |Wire(f)| else 0
    ensures out[..total] == Wire(f)[..total]
    ensures out[total..] == old(out[total..])
    ensures total > 0 <==> |f.data| <= 64 && |f.data| + 7 <= capacity
    ensures total > 0 ==> var payload := [f.cmd, f.dir, 0, |f.data|] + f.data;
                          total == |f.data| + 7 && out[..total] == Encode(payload) + [Crc(payload), 0]
  {
    hide Encode, Crc, Payload, Wire;
    WireIs(f);
    if |f.data| <= 64 {
      WireLength(f);
      WireOfShort(f);
    }
    if |f.data| > MAX_DATA_LEN {
      return 0;
    }
    var payload := Payload(f);
    var crc := ComputeByTable(payload);
    WireLength(f);
    var cobs := new byte[MAX_COBS_LEN];
    var cobsLen := EncodeInto(payload, cobs);
    if cobsLen + 1 + 1 > capacity {
      return 0;
    }
    var i := 0;
    while i < cobsLen
      invariant 0 <= i <= cobsLen
      invariant cobs[..cobsLen] == Encode(payload)
      invariant forall j :: 0 <= j < i ==> out[j] == cobs[j]
      invariant forall j :: i <= j < out.Length ==> out[j] == old(out[j])
    {
      out[i] := cobs[i];
      i := i + 1;
    }
    assert out[..cobsLen] == cobs[..cobsLen] == Encode(payload);
    out[cobsLen] := crc;
    out[cobsLen + 1] := DELIMITER;
    total := cobsLen + 2;
    assert out[..total] == out[..cobsLen] + [crc, DELIMITER];
  }

  lemma WireLength(f: Frame)
    requires Sendable(f)
    ensures |f.data| + 5 == |Encode(Payload(f))| == |Wire(f)| - 2 <= MAX_COBS_LEN - 2
  {
    EncodeLength(Payload(f));
  }

  /** What a frame looks like when its length fits in one byte. */
  lemma WireOfShort(f: Frame)
    requires |f.data| <= 64
    ensures var payload := [f.cmd, f.dir, 0, |f.data|] + f.data;
            Payload(f) == payload && Wire(f) == Encode(payload) + [Crc(payload), 0]
  {
    hide Encode, Crc;
  }

  lemma WireIs(f: Frame)
    ensures Wire(f) == Encode(Payload(f)) + [Crc(Payload(f)), 0]
  {
    hide Encode, Crc, Payload;
  }

  lemma WireOfAny(f: Frame)
    requires |f.data| < 0x1_0000
    ensures var payload := [f.cmd, f.dir, |f.data| / 256, |f.data| % 256] + f.data;
            Payload(f) == payload && Wire(f) == Encode(payload) + [Crc(payload), 0]
  {
    hide Encode, Crc;
  }

  /** frame_encode of the Pi: empty when the data is too long. */
  method EncodeFrameVector(f: Frame) returns (frame: seq<byte>)
    ensures frame == if Sendable(f) then Wire(f) else []
    ensures |f.data| > 64 ==> frame == []
    ensures |f.data| <= 64 ==> var payload := [f.cmd, f.dir, 0, |f.data|] + f.data;
                               frame == Encode(payload) + [Crc(payload), 0]
  {
    if |f.data| <= 64 {
      WireOfShort(f);
    }
    if |f.data| > MAX_DATA_LEN {
      return [];
    }
    var payload := Payload(f);
    var crc := ComputeByTable(payload);
    var cobs := EncodePush(payload);
    frame := cobs + [crc, DELIMITER];
  }

  /** make_frame of the frame generator: no limit on the data but that of the length field, the
      counter of each block kept in the output and the register of the CRC never masked. */
  method MakeFrame(cmd: byte, data: seq<byte>) returns (frame: seq<byte>)
    requires |data| < 0x1_0000
    ensures frame == Wire(Frame(cmd, 0x01, data))
    ensures var payload := [cmd, 0x01, |data| / 256, |data| % 256] + data;
            frame == Encode(payload) + [Crc(payload), 0]
  {
    hide Encode, Crc, Payload;
    WireOfAny(Frame(cmd, 0x01, data));
    var raw := Payload(Frame(cmd, 0x01, data));
    var encoded := EncodeCountInPlace(raw);
    var crc := ComputeUnmasked(raw);
    frame := encoded + [crc, DELIMITER];
  }

  // ---- decoders ----

  function LengthField(payload: seq<byte>): nat
    requires |payload| >= 4
  {
    256 * (payload[2] as int) + payload[3] as int
  }

  /** The checks on a decoded payload, the same at both ends. */
  function Accept(payload: seq<byte>, crc: byte): Option<Frame> {
    if |payload| < 4 || |payload| > MAX_FRAME_LEN || Crc(payload) != crc then None
    else if LengthField(payload) != |payload| - 4 then None
    else Some(Frame(payload[0], payload[1], payload[4..]))
  }

  /** What a parser does with the bytes collected before a delimiter. */
  function DecodeRaw(strict: bool, raw: seq<byte>): Option<Frame> {
    if |raw| < 2 then None
    else
      var block := raw[..|raw| - 1];
      var crc := raw[|raw| - 1];
      if strict then
        var d := StrictDecode(block);
        if d.None? then None else Accept(d.value, crc)
      else
        var d := LenientDecode(block, MAX_FRAME_LEN);
        if d.Ok? then Accept(d.data, crc) else None
  }

  lemma PayloadAccepted(f: Frame)
    requires Sendable(f)
    ensures Accept(Payload(f), Crc(Payload(f))) == Some(f)
  {
    assert Payload(f)[4..] == f.data;
  }

  lemma AcceptedIsPayload(payload: seq<byte>, crc: byte)
    requires Accept(payload, crc).Some?
    ensures var f := Accept(payload, crc).value;
            Sendable(f) && Payload(f) == payload && Crc(payload) == crc
  {
    hide Crc;
    var f := Accept(payload, crc).value;
    assert |f.data| == |payload| - 4;
    assert payload == [payload[0], payload[1], payload[2], payload[3]] + payload[4..];
  }

  /** Both ends decode the bytes of a frame to that frame. */
  lemma WireDecodes(f: Frame, strict: bool)
    requires Sendable(f)
    ensures 2 <= |Wire(f)| - 1 <= MAX_COBS_LEN - 1
    ensures DecodeRaw(strict, Wire(f)[..|Wire(f)| - 1]) == Some(f)
  {
    hide Crc, Encode, StrictDecode, LenientDecode, Accept;
    var p := Payload(f);
    EncodeLength(p);
    var raw := Wire(f)[..|Wire(f)| - 1];
    assert raw == Encode(p) + [Crc(p)] && raw[..|raw| - 1] == Encode(p);
    RoundTrip(p);
    StrictImpliesLenient(Encode(p), MAX_FRAME_LEN);
    PayloadAccepted(f);
  }

  /** A zero-free string that the Pi decodes to a frame is the encoding of that frame. */
  lemma DecodesIffWire(raw: seq<byte>, f: Frame)
    requires ZeroFree(raw) && |raw| < MAX_COBS_LEN
    ensures DecodeRaw(true, raw) == Some(f) <==> Sendable(f) && raw + [DELIMITER] == Wire(f)
  {
    hide Crc, Encode, StrictDecode, Accept;
    if DecodeRaw(true, raw) == Some(f) {
      var block, crc := raw[..|raw| - 1], raw[|raw| - 1];
      var payload := StrictDecode(block).value;
      AcceptedIsPayload(payload, crc);
      ShortLastCode(block);
      CanonicalIff(block);
      assert raw + [DELIMITER] == block + [crc, DELIMITER];
    }
    if Sendable(f) && raw + [DELIMITER] == Wire(f) {
      WireDecodes(f, true);
      assert Wire(f)[..|Wire(f)| - 1] == raw;
    }
  }

  lemma {:induction false} ShortLastCode(x: seq<byte>)
    requires StrictDecode(x).Some? && x != [] && |x| < 0xFF
    ensures LastCode(x) < 0xFF
    decreases |x|
  {
    if x[x[0]..] != [] {
      ShortLastCode(x[x[0]..]);
    }
  }

  // ---- the two ends against each other ----

  /** Every frame the Pi accepts the firmware accepts identically. */
  lemma StrictAcceptanceIsLenient(raw: seq<byte>)
    requires DecodeRaw(true, raw).Some?
    ensures DecodeRaw(false, raw) == DecodeRaw(true, raw)
  {
    hide Crc, Accept;
    var block := raw[..|raw| - 1];
    assert |StrictDecode(block).value| <= MAX_FRAME_LEN by {
      AcceptedIsPayload(StrictDecode(block).value, raw[|raw| - 1]);
      assert Sendable(DecodeRaw(true, raw).value);
    }
    StrictImpliesLenient(block, MAX_FRAME_LEN);
  }

  /** Exactly what the firmware accepts beyond the Pi: a truncated last block, repaired. */
  lemma LenientAcceptanceIff(raw: seq<byte>)
    requires |raw| >= 2
    ensures DecodeRaw(false, raw) == DecodeRaw(true, Repair(raw[..|raw| - 1]) + [raw[|raw| - 1]])
  {
    hide Crc, StrictDecode, LenientDecode, Repair;
    var block, crc := raw[..|raw| - 1], raw[|raw| - 1];
    var fixed := Repair(block) + [crc];
    assert fixed[..|fixed| - 1] == Repair(block) && fixed[|fixed| - 1] == crc;
    LenientIsStrictOnRepaired(block, MAX_FRAME_LEN);
  }

  /** A frame whose CRC is 0 is rejected by both ends when the CRC is taken for the
      delimiter.  At the lenient end, when the payload ends nonzero, the payload without
      its last byte passes the CRC test; only the length field gives it away. */
  lemma ZeroCrcRejected(f: Frame, strict: bool)
    requires Sendable(f) && Crc(Payload(f)) == 0
    ensures DecodeRaw(strict, Encode(Payload(f))) == None
    ensures var p, raw := Payload(f), Encode(Payload(f));
            p[|p| - 1] != 0 && !strict ==>
              && LenientDecode(raw[..|raw| - 1], MAX_FRAME_LEN) == Ok(p[..|p| - 1])
              && Crc(p[..|p| - 1]) == raw[|raw| - 1]
  {
    hide Crc, Encode, StrictDecode, LenientDecode, Repair;
    var p, raw := Payload(f), Encode(Payload(f));
    var body, last := p[..|p| - 1], p[|p| - 1];
    EncodeLength(p);
    TruncatedEncoding(p);
    LenientIsStrictOnRepaired(raw[..|raw| - 1], MAX_FRAME_LEN);
    assert p == body + [last];
    ZeroCrcIffLastByteIsCrc(body, last);
    assert |body| >= 4 ==> body[2] == p[2] && body[3] == p[3];
  }
}
