// The bytes of the commands the Pi sends, written out.
module CommandFrames {
  import opened Words
  import opened Cobs
  import opened Crc8
  import opened Crc8Division
  import opened Frames

  /** A frame without data. */
  lemma EmptyWire(cmd: byte, dir: byte)
    requires cmd != 0 && dir != 0
    ensures Wire(Frame(cmd, dir, [])) == [3, cmd, dir, 1, 1, Crc([cmd, dir, 0, 0]), 0]
  {
    hide Encode, Crc;
    WireOfShort(Frame(cmd, dir, []));
    var payload := [cmd, dir, 0, 0];
    assert [cmd, dir, 0, 0] + [] == payload;
    EncodeShortBlock([cmd, dir], [0]);
    assert [cmd, dir] + [0] + [0] == payload;
    EncodeShortBlock([], []);
    assert [] + [0] + [] == [0];
    EncodeLastBlock([]);
    assert Encode(payload) == [3, cmd, dir, 1, 1];
  }

  /** A frame whose data contains no zero: the stuffing shows at two places only. */
  lemma NameWire(cmd: byte, dir: byte, data: seq<byte>)
    requires cmd != 0 && dir != 0 && 0 < |data| <= 64 && ZeroFree(data)
    ensures Wire(Frame(cmd, dir, data)) ==
              [3, cmd, dir, |data| + 2, |data|] + data + [Crc([cmd, dir, 0, |data|] + data), 0]
  {
    hide Encode, Crc;
    WireOfShort(Frame(cmd, dir, data));
    var payload := [cmd, dir, 0, |data|] + data;
    var run := [|data|] + data;
    EncodeShortBlock([cmd, dir], run);
    assert [cmd, dir] + [0] + run == payload;
    EncodeLastBlock(run);
    assert Encode(payload) == [3, cmd, dir, |data| + 2, |data|] + data;
  }

  /** UNKNOWN, NOFACE and MULTIFACE. */
  lemma CommandBytes()
    ensures Wire(Frame(0x11, 0x01, [])) == [0x03, 0x11, 0x01, 0x01, 0x01, 0x1A, 0x00]
    ensures Wire(Frame(0x12, 0x01, [])) == [0x03, 0x12, 0x01, 0x01, 0x01, 0x20, 0x00]
    ensures Wire(Frame(0x13, 0x01, [])) == [0x03, 0x13, 0x01, 0x01, 0x01, 0x36, 0x00]
  {
    hide Crc, Wire;
    EmptyWire(0x11, 0x01);
    EmptyWire(0x12, 0x01);
    EmptyWire(0x13, 0x01);
    UnknownCheck();
    NoFaceCheck();
    ManyFacesCheck();
  }
}
