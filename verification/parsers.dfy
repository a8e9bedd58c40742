// The byte-at-a-time frame parsers of the two ends: the same state machine around a lenient
// (firmware) and a strict (Pi) block decoder.
module Parsers {
  import opened Words
  import opened Cobs
  import opened CobsDecode
  import opened Crc8
  import opened Frames

  // ---- the state machine ----

  /** Waiting for a nonzero byte, or collecting the bytes of a frame. */
  datatype Parser = Wait | Collect(buf: seq<byte>)

  ghost predicate WellFormed(p: Parser) {
    p.Collect? ==> 1 <= |p.buf| <= MAX_COBS_LEN
  }

  function Step(strict: bool, p: Parser, ch: byte): (Parser, Option<Frame>) {
    match p
    case Wait => (if ch == DELIMITER then Wait else Collect([ch]), None)
    case Collect(buf) =>
      if |buf| >= MAX_COBS_LEN then (Wait, None)
      else if ch == DELIMITER then (Wait, DecodeRaw(strict, buf))
      else (Collect(buf + [ch]), None)
  }

  function Emitted(o: Option<Frame>): seq<Frame> { if o.Some? then [o.value] else [] }

  /** The state after a stream of bytes and the frames emitted on the way. */
  function Run(strict: bool, p: Parser, stream: seq<byte>): (Parser, seq<Frame>)
    decreases |stream|
  {
    if stream == [] then (p, [])
    else
      var (next, o) := Step(strict, p, stream[0]);
      var (last, frames) := Run(strict, next, stream[1..]);
      (last, Emitted(o) + frames)
  }

  // ---- the two parsers ----

  datatype State = WaitDelimiter | InData | GotDelimiter

  const FRAME_BYTE_TIMEOUT_MS := 5

  /** The parser of frame_protocol.c, its static variables as fields. */
  class FirmwareParser {
    var state: State
    var buf: array<byte>
    var count: nat
    var lastTick: u32
    var errorFlag: bool

    ghost predicate Valid()
      reads this
    {
      && buf.Length == MAX_COBS_LEN
      && state != GotDelimiter
      && (state == WaitDelimiter ==> count == 0)
      && (state == InData ==> 1 <= count <= MAX_COBS_LEN)
    }

    ghost function View(): (p: Parser)
      requires Valid()
      reads this, buf
      ensures WellFormed(p)
    {
      if state == WaitDelimiter then Wait else Collect(buf[..count])
    }

    constructor ()
      ensures Valid() && fresh(buf) && View() == Wait && lastTick == 0 && !errorFlag
    {
      buf := new byte[MAX_COBS_LEN];
      state, count, lastTick, errorFlag := WaitDelimiter, 0, 0, false;
    }

    method Reset()
      requires Valid()
      modifies this`state, this`count, this`errorFlag
      ensures Valid() && View() == Wait && !errorFlag
    {
      state, count, errorFlag := WaitDelimiter, 0, false;
    }

    /** frame_parser_check_timeout: an idle parser restarts the clock, a late one is reset. */
    method CheckTimeout(tick: u32)
      requires Valid()
      modifies this`state, this`count, this`lastTick
      ensures Valid()
      ensures old(View()) == Wait ==> View() == Wait && lastTick == tick
      ensures old(View()) != Wait ==>
                lastTick == old(lastTick) &&
                View() == if Sub32(tick, lastTick) >= 5 then Wait else old(View())
    {
      if state == WaitDelimiter && count == 0 {
        lastTick := tick;
        return;
      }
      if Sub32(tick, lastTick) >= FRAME_BYTE_TIMEOUT_MS {
        state := WaitDelimiter;
        count := 0;
      }
    }

    /** frame_parser_feed: one byte in, at most one frame out. */
    method Feed(ch: byte, tick: u32) returns (done: bool, frame: Frame)
      requires Valid()
      modifies this, buf
      ensures Valid() && buf == old(buf) && lastTick == tick
      ensures var (p, o) := Step(false, old(View()), ch);
              View() == p && done == o.Some? && (done ==> frame == o.value)
      ensures errorFlag == (old(errorFlag) || (old(View()).Collect? && ch == DELIMITER
                                               && |old(View()).buf| < MAX_COBS_LEN && !done))
    {
      lastTick := tick;
      done, frame := false, Frame(0, 0, []);
      match state
      case WaitDelimiter =>
        if ch != DELIMITER {
          buf[count] := ch;
          count := count + 1;
          state := InData;
          assert buf[..1] == [ch];
        }
      case InData =>
        if count >= MAX_COBS_LEN {
          state := WaitDelimiter;
          count := 0;
        } else if ch == DELIMITER {
          state := GotDelimiter;
          done, frame := ProcessFrame();
        } else {
          ghost var before := buf[..count];
          buf[count] := ch;
          count := count + 1;
          assert buf[..count] == before + [ch];
        }
    }

    /** The process_frame block of frame_parser_feed. */
    method ProcessFrame() returns (done: bool, frame: Frame)
      requires buf.Length == MAX_COBS_LEN && state == GotDelimiter && 1 <= count <= MAX_COBS_LEN
      modifies this`state, this`count, this`errorFlag
      ensures Valid() && View() == Wait
      ensures var o := DecodeRaw(false, old(buf[..count]));
              done == o.Some? && (done ==> frame == o.value) && errorFlag == (old(errorFlag) || !done)
    {
      hide LenientDecode, Crc;
      frame := Frame(0, 0, []);
      var raw := buf[..count];
      var n := count;
      state, count := WaitDelimiter, 0;
      if n < 2 {
        errorFlag := true;
        return false, frame;
      }
      var receivedCrc := raw[n - 1];
      var payload := new byte[MAX_FRAME_LEN];
      var decodedLen := DecodeInto(raw[..n - 1], payload, MAX_FRAME_LEN);
      if decodedLen < 0 || decodedLen > MAX_FRAME_LEN || decodedLen < 4 {
        errorFlag := true;
        return false, frame;
      }
      var bytes := payload[..decodedLen];
      var crc := ComputeByTable(bytes);
      if crc != receivedCrc {
        errorFlag := true;
        return false, frame;
      }
      var len := 256 * (bytes[2] as int) + bytes[3] as int;
      if len > MAX_DATA_LEN {
        errorFlag := true;
        return false, frame;
      }
      if len != decodedLen - 4 {
        errorFlag := true;
        return false, frame;
      }
      done, frame := true, Frame(bytes[0], bytes[1], bytes[4..]);
    }

    method HadError() returns (had: bool)
      modifies this`errorFlag
      ensures had == old(errorFlag) && !errorFlag
    {
      had := errorFlag;
      errorFlag := false;
    }
  }

  /** The FrameParser class of the Pi. */
  class PiParser {
    var waiting: bool
    var buf: array<byte>
    var pos: nat

    ghost predicate Valid()
      reads this
    {
      && buf.Length == MAX_COBS_LEN
      && (waiting ==> pos == 0)
      && (!waiting ==> 1 <= pos <= MAX_COBS_LEN)
    }

    ghost function View(): (p: Parser)
      requires Valid()
      reads this, buf
      ensures WellFormed(p)
    {
      if waiting then Wait else Collect(buf[..pos])
    }

    constructor ()
      ensures Valid() && fresh(buf) && View() == Wait
    {
      buf := new byte[MAX_COBS_LEN];
      waiting, pos := true, 0;
    }

    method Reset()
      requires buf.Length == MAX_COBS_LEN
      modifies this`waiting, this`pos
      ensures Valid() && View() == Wait
    {
      waiting, pos := true, 0;
    }

    method Feed(ch: byte) returns (done: bool, frame: Frame)
      requires Valid()
      modifies this, buf
      ensures Valid() && buf == old(buf)
      ensures var (p, o) := Step(true, old(View()), ch);
              View() == p && done == o.Some? && (done ==> frame == o.value)
    {
      done, frame := false, Frame(0, 0, []);
      if waiting {
        if ch == DELIMITER {
          return;
        }
        buf[pos] := ch;
        pos := pos + 1;
        waiting := false;
        assert buf[..1] == [ch];
        return;
      }
      if pos >= MAX_COBS_LEN {
        Reset();
        return;
      }
      if ch == DELIMITER {
        done, frame := DecodeFrameRaw(buf[..pos]);
        Reset();
        return;
      }
      ghost var before := buf[..pos];
      buf[pos] := ch;
      pos := pos + 1;
      assert buf[..pos] == before + [ch];
    }
  }

  /** frame_decode_raw of the Pi. */
  method DecodeFrameRaw(raw: seq<byte>) returns (ok: bool, frame: Frame)
    ensures ok == DecodeRaw(true, raw).Some? && (ok ==> frame == DecodeRaw(true, raw).value)
  {
    hide StrictDecode, Crc;
    frame := Frame(0, 0, []);
    if |raw| < 2 {
      return false, frame;
    }
    var payload := DecodeOrEmpty(raw[..|raw| - 1]);
    if |payload| == 0 || |payload| < 4 || |payload| > MAX_FRAME_LEN {
      return false, frame;
    }
    var crc := ComputeByTable(payload);
    if crc != raw[|raw| - 1] {
      return false, frame;
    }
    var len := 256 * (payload[2] as int) + payload[3] as int;
    if len != |payload| - 4 {
      return false, frame;
    }
    ok, frame := true, Frame(payload[0], payload[1], payload[4..]);
  }

  /** frame_decode of the simulator. */
  method DecodeFrameSimulated(raw: seq<byte>) returns (frame: Option<Frame>)
    ensures frame == DecodeRaw(true, raw)
  {
    hide StrictDecode, Crc;
    if |raw| < 2 {
      return None;
    }
    var decoded := DecodeOrNone(raw[..|raw| - 1]);
    if decoded.None? {
      return None;
    }
    var payload := decoded.value;
    if |payload| < 4 || |payload| > MAX_DATA_LEN + 4 {
      return None;
    }
    var crc := ComputeByTable(payload);
    if crc != raw[|raw| - 1] {
      return None;
    }
    var len := 256 * (payload[2] as int) + payload[3] as int;
    if len != |payload| - 4 {
      return None;
    }
    frame := Some(Frame(payload[0], payload[1], payload[4..]));
  }

  /** The FrameParser class of the simulator: the third implementation, with a growing buffer. */
  class SimulatorParser {
    var waiting: bool
    var buf: seq<byte>

    ghost predicate Valid()
      reads this
    {
      (waiting ==> buf == []) && (!waiting ==> 1 <= |buf| <= MAX_COBS_LEN)
    }

    ghost function View(): (p: Parser)
      requires Valid()
      reads this
      ensures WellFormed(p)
    {
      if waiting then Wait else Collect(buf)
    }

    constructor ()
      ensures Valid() && View() == Wait
    {
      waiting, buf := true, [];
    }

    method Reset()
      modifies this
      ensures Valid() && View() == Wait
    {
      waiting, buf := true, [];
    }

    method Feed(ch: byte) returns (frame: Option<Frame>)
      requires Valid()
      modifies this
      ensures Valid() && (View(), frame) == Step(true, old(View()), ch)
    {
      frame := None;
      if waiting {
        if ch == DELIMITER {
          return;
        }
        buf := buf + [ch];
        waiting := false;
        assert buf == [ch];
        return;
      }
      if |buf| >= MAX_COBS_LEN {
        Reset();
        return;
      }
      if ch == DELIMITER {
        frame := DecodeFrameSimulated(buf);
        Reset();
        return;
      }
      buf := buf + [ch];
    }
  }

  // ---- runs ----

  lemma {:induction false} RunAppend(strict: bool, p: Parser, a: seq<byte>, b: seq<byte>)
    ensures var (q, fa) := Run(strict, p, a);
            var (r, fb) := Run(strict, q, b);
            Run(strict, p, a + b) == (r, fa + fb)
    decreases |a|
  {
    hide Step;
    if a == [] {
      assert a + b == b;
      assert [] + Run(strict, p, b).1 == Run(strict, p, b).1;
    } else {
      assert (a + b)[1..] == a[1..] + b;
      RunAppend(strict, Step(strict, p, a[0]).0, a[1..], b);
      var (q, fa) := Run(strict, Step(strict, p, a[0]).0, a[1..]);
      var (r, fb) := Run(strict, q, b);
      var e := Emitted(Step(strict, p, a[0]).1);
      assert e + (fa + fb) == e + fa + fb;
    }
  }

  function Held(p: Parser): seq<byte> { if p.Wait? then [] else p.buf }

  function Holding(held: seq<byte>): Parser { if held == [] then Wait else Collect(held) }

  // A parser drops everything it holds with the byte that finds the buffer full.
  const CYCLE := MAX_COBS_LEN + 1

  /** What a parser still holds of a zero-free stretch of bytes: all but whole cycles. */
  function Residue(held: seq<byte>): (r: seq<byte>)
    ensures |r| < CYCLE
    decreases |held|
  {
    if |held| < CYCLE then held else Residue(held[CYCLE..])
  }

  lemma {:induction false} ResidueIsSuffix(held: seq<byte>)
    ensures |Residue(held)| == |held| % CYCLE
    ensures Residue(held) == held[|held| - |Residue(held)|..]
    decreases |held|
  {
    if |held| >= CYCLE {
      var rest := held[CYCLE..];
      ResidueIsSuffix(rest);
      OneCycleLess(|held|);
      var k := |Residue(rest)|;
      assert rest[|rest| - k..] == held[|held| - k..];
    }
  }

  lemma OneCycleLess(n: nat)
    requires n >= CYCLE
    ensures (n - CYCLE) % CYCLE == n % CYCLE
  {
    assert CYCLE == 72;
  }

  lemma ResidueOfFullBuffer(held: seq<byte>, b: byte, rest: seq<byte>)
    requires |held| == MAX_COBS_LEN
    ensures Residue(held + ([b] + rest)) == Residue(rest)
  {
    assert (held + ([b] + rest))[CYCLE..] == rest;
  }

  /** Zero-free bytes never complete a frame; every 72nd one empties the buffer. */
  lemma {:induction false} RunOverZeroFree(strict: bool, p: Parser, chunk: seq<byte>)
    requires WellFormed(p) && ZeroFree(chunk)
    ensures Run(strict, p, chunk) == (Holding(Residue(Held(p) + chunk)), [])
    decreases |chunk|
  {
    hide DecodeRaw, Residue;
    if chunk == [] {
      assert Held(p) + chunk == Held(p);
      ShortResidue(Held(p));
    } else {
      var b, rest := chunk[0], chunk[1..];
      var next := Step(strict, p, b).0;
      RunOverZeroFree(strict, next, rest);
      var none: seq<Frame> := [];
      assert none + none == none;
      assert chunk == [b] + rest;
      if |Held(p)| == MAX_COBS_LEN {
        ResidueOfFullBuffer(Held(p), b, rest);
        assert Held(next) + rest == rest;
      } else {
        assert Held(next) == Held(p) + [b];
        assert Held(next) + rest == Held(p) + chunk;
      }
    }
  }

  lemma ShortResidue(held: seq<byte>)
    requires |held| < CYCLE
    ensures Residue(held) == held
  {
  }

  lemma RunOverChunk(strict: bool, chunk: seq<byte>)
    requires ZeroFree(chunk)
    ensures Run(strict, Wait, chunk + [DELIMITER]) ==
              (Wait, if |Residue(chunk)| < MAX_COBS_LEN then Emitted(DecodeRaw(strict, Residue(chunk))) else [])
  {
    hide DecodeRaw, Residue, Run;
    var r := Residue(chunk);
    RunAppend(strict, Wait, chunk, [DELIMITER]);
    RunOverZeroFree(strict, Wait, chunk);
    assert Held(Wait) + chunk == chunk;
    RunOfOne(strict, Holding(r), DELIMITER);
    NothingDecodes(strict);
    var last := Emitted(Step(strict, Holding(r), DELIMITER).1);
    assert [] + last == last;
  }

  lemma NothingDecodes(strict: bool)
    ensures DecodeRaw(strict, []) == None
  {
  }

  lemma {:induction false} ResidueIsZeroFree(held: seq<byte>)
    requires ZeroFree(held)
    ensures ZeroFree(Residue(held))
    decreases |held|
  {
    if |held| >= CYCLE {
      ResidueIsZeroFree(held[CYCLE..]);
    }
  }

  /** The language of the Pi's parser: after any zero-free chunk the delimiter yields a frame
      exactly when what is left of the chunk, with the delimiter, is the encoding of that frame.
      What is left are the last bytes of the chunk, as many as its length is modulo 72. */
  lemma Language(chunk: seq<byte>, f: Frame)
    requires ZeroFree(chunk)
    ensures Run(true, Wait, chunk + [DELIMITER]).0 == Wait
    ensures Run(true, Wait, chunk + [DELIMITER]).1 == [f] <==>
              |f.data| <= 64 && Residue(chunk) + [0] == Wire(f)
    ensures |Run(true, Wait, chunk + [DELIMITER]).1| <= 1
    ensures |Residue(chunk)| == |chunk| % 72 && Residue(chunk) == chunk[|chunk| - |Residue(chunk)|..]
  {
    hide DecodeRaw, Residue, Run, Wire;
    ResidueIsSuffix(chunk);
    var r := Residue(chunk);
    RunOverChunk(true, chunk);
    ResidueIsZeroFree(chunk);
    if |r| < MAX_COBS_LEN {
      DecodesIffWire(r, f);
    } else if Sendable(f) && r + [DELIMITER] == Wire(f) {
      WireLength(f);
    }
  }

  lemma RunOfOne(strict: bool, p: Parser, ch: byte)
    ensures Run(strict, p, [ch]) == (Step(strict, p, ch).0, Emitted(Step(strict, p, ch).1))
  {
    assert Run(strict, Step(strict, p, ch).0, [ch][1..]) == (Step(strict, p, ch).0, []);
    assert Emitted(Step(strict, p, ch).1) + [] == Emitted(Step(strict, p, ch).1);
  }

  /** For chunks shorter than 72 bytes the whole chunk is what is encoded ... */
  lemma LanguageOfShortChunks(chunk: seq<byte>, f: Frame)
    requires ZeroFree(chunk) && |chunk| < CYCLE
    ensures Run(true, Wait, chunk + [DELIMITER]).1 == [f] <==> Sendable(f) && chunk + [DELIMITER] == Wire(f)
  {
    ShortResidue(chunk);
    Language(chunk, f);
  }

  /** ... but not for longer ones: 72 bytes of noise with no delimiter are swallowed whole, and
      the frame behind them is accepted although the chunk is not its encoding. */
  lemma LongChunkIsNotTheEncoding(noise: seq<byte>, f: Frame)
    requires ZeroFree(noise) && |noise| == CYCLE
    requires Sendable(f) && Crc(Payload(f)) != 0
    ensures Run(true, Wait, noise + Wire(f)).1 == [f] && noise + Wire(f) != Wire(f)
  {
    hide Crc, Run, Encode, Residue, Payload;
    var body := Wire(f)[..|Wire(f)| - 1];
    EncodeIsZeroFree(Payload(f));
    assert Wire(f) == body + [DELIMITER];
    assert noise + Wire(f) == noise + body + [DELIMITER];
    WireLength(f);
    ResidueOfFullBuffer(noise[..MAX_COBS_LEN], noise[MAX_COBS_LEN], body);
    assert noise + body == noise[..MAX_COBS_LEN] + ([noise[MAX_COBS_LEN]] + body);
    ShortResidue(body);
    Language(noise + body, f);
  }

  // ---- streams of frames ----

  function WireAll(frames: seq<Frame>): seq<byte> {
    if frames == [] then [] else Wire(frames[0]) + WireAll(frames[1..])
  }

  lemma OneFrame(strict: bool, f: Frame)
    requires Sendable(f) && Crc(Payload(f)) != 0
    ensures Run(strict, Wait, Wire(f)) == (Wait, [f])
  {
    hide Crc, Encode, DecodeRaw, Residue, Run, Payload;
    var body := Wire(f)[..|Wire(f)| - 1];
    EncodeIsZeroFree(Payload(f));
    WireDecodes(f, strict);
    assert Wire(f) == body + [DELIMITER];
    RunOverChunk(strict, body);
    ShortResidue(body);
  }

  /** The frames whose CRC is not 0, in order. */
  function Survivors(frames: seq<Frame>): seq<Frame> {
    if frames == [] then []
    else (if Crc(Payload(frames[0])) != 0 then [frames[0]] else []) + Survivors(frames[1..])
  }

  /** Both ends receive, of any frames sent, exactly those whose CRC is not 0, in order. */
  lemma {:induction false} FramesArrive(strict: bool, frames: seq<Frame>)
    requires forall i :: 0 <= i < |frames| ==> Sendable(frames[i])
    ensures Run(strict, Wait, WireAll(frames)) == (Wait, Survivors(frames))
    decreases |frames|
  {
    hide Wire, Run, Crc, Payload, Sendable;
    if frames == [] {
      RunOfNothing(strict, Wait);
    } else {
      if Crc(Payload(frames[0])) != 0 {
        OneFrame(strict, frames[0]);
      } else {
        ZeroCrcFrameIsDropped(strict, frames[0]);
      }
      FramesArrive(strict, frames[1..]);
      RunAppend(strict, Wait, Wire(frames[0]), WireAll(frames[1..]));
    }
  }

  /** So all frames arrive exactly if no CRC is 0. */
  lemma AllArriveIff(strict: bool, frames: seq<Frame>)
    requires forall i :: 0 <= i < |frames| ==> Sendable(frames[i])
    ensures Run(strict, Wait, WireAll(frames)).1 == frames <==>
              forall i :: 0 <= i < |frames| ==> Crc(Payload(frames[i])) != 0
  {
    hide Run, WireAll, Survivors;
    FramesArrive(strict, frames);
    AllSurviveIff(frames);
  }

  lemma {:induction false} AllSurviveIff(frames: seq<Frame>)
    ensures |Survivors(frames)| <= |frames|
    ensures Survivors(frames) == frames <==> forall i :: 0 <= i < |frames| ==> Crc(Payload(frames[i])) != 0
  {
    hide Crc, Payload;
    if frames != [] {
      var rest := frames[1..];
      AllSurviveIff(rest);
      assert frames == [frames[0]] + rest;
      assert forall i :: 0 <= i < |rest| ==> rest[i] == frames[i + 1];
      if Crc(Payload(frames[0])) != 0 {
        assert Survivors(frames)[1..] == Survivors(rest);
        assert forall i :: 0 < i < |frames| ==> frames[i] == rest[i - 1];
      }
    }
  }

  lemma RunOfNothing(strict: bool, p: Parser)
    ensures Run(strict, p, []) == (p, [])
  {
  }

  /** A delimiter brings a parser back to the start from every state. */
  lemma DelimiterResynchronises(strict: bool, p: Parser, noise: seq<byte>)
    requires noise != [] && noise[|noise| - 1] == DELIMITER
    ensures Run(strict, p, noise).0 == Wait
  {
    hide DecodeRaw;
    var before := noise[..|noise| - 1];
    assert noise == before + [DELIMITER];
    RunAppend(strict, p, before, [DELIMITER]);
    RunOfOne(strict, Run(strict, p, before).0, DELIMITER);
  }

  /** After any noise that ends in a delimiter, from any state, every frame sent arrives whose CRC is
      not 0. */
  lemma FramesArriveAfterNoise(strict: bool, p: Parser, noise: seq<byte>, frames: seq<Frame>)
    requires noise != [] && noise[|noise| - 1] == DELIMITER
    requires forall i :: 0 <= i < |frames| ==> Sendable(frames[i])
    ensures Run(strict, p, noise + WireAll(frames)) == (Wait, Run(strict, p, noise).1 + Survivors(frames))
  {
    hide Run, Survivors, WireAll;
    DelimiterResynchronises(strict, p, noise);
    FramesArrive(strict, frames);
    RunAppend(strict, p, noise, WireAll(frames));
  }

  /** A frame with CRC 0 is lost at both ends, and nothing else is disturbed. */
  lemma ZeroCrcFrameIsDropped(strict: bool, f: Frame)
    requires Sendable(f) && Crc(Payload(f)) == 0
    ensures Run(strict, Wait, Wire(f)) == (Wait, [])
  {
    hide Crc, Encode, DecodeRaw, Residue;
    var code := Encode(Payload(f));
    EncodeIsZeroFree(Payload(f));
    WireLength(f);
    ZeroCrcRejected(f, strict);
    assert Wire(f) == code + [DELIMITER] + [DELIMITER];
    RunAppend(strict, Wait, code + [DELIMITER], [DELIMITER]);
    RunOverChunk(strict, code);
    ShortResidue(code);
    RunOfOne(strict, Wait, DELIMITER);
  }

  // What precedes the last byte of a frame's payload.
  function PayloadBefore(cmd: byte, dir: byte, body: seq<byte>): seq<byte>
    requires |body| < MAX_DATA_LEN
  {
    [cmd, dir, 0, |body| + 1] + body
  }

  /** Such frames are easy to find: whatever the command, the direction and all data but the last
      byte, exactly one last byte makes a frame that is lost. */
  lemma OneLastByteIsLost(strict: bool, cmd: byte, dir: byte, body: seq<byte>, last: byte)
    requires |body| < MAX_DATA_LEN
    ensures var f := Frame(cmd, dir, body + [last]);
            && Sendable(f)
            && Run(strict, Wait, Wire(f)) == (Wait, if last == Crc(PayloadBefore(cmd, dir, body)) then [] else [f])
  {
    hide Crc, Run, Wire;
    var f := Frame(cmd, dir, body + [last]);
    assert Payload(f) == PayloadBefore(cmd, dir, body) + [last];
    ZeroCrcIffLastByteIsCrc(PayloadBefore(cmd, dir, body), last);
    if Crc(Payload(f)) == 0 {
      ZeroCrcFrameIsDropped(strict, f);
    } else {
      OneFrame(strict, f);
    }
  }

  /** A frame without data is lost exactly if its direction is the CRC of its command. */
  lemma EmptyFrameIsLostIff(strict: bool, cmd: byte, dir: byte)
    ensures var f := Frame(cmd, dir, []);
            Sendable(f) && Run(strict, Wait, Wire(f)) == (Wait, if dir == Crc([cmd]) then [] else [f])
  {
    hide Crc, Run, Wire;
    var f := Frame(cmd, dir, []);
    assert Payload(f) == [cmd, dir, 0] + [0] && [cmd, dir, 0] == [cmd, dir] + [0] && [cmd, dir] == [cmd] + [dir];
    ZeroCrcIffLastByteIsCrc([cmd, dir, 0], 0);
    ZeroCrcIffLastByteIsCrc([cmd, dir], 0);
    ZeroCrcIffLastByteIsCrc([cmd], dir);
    if Crc(Payload(f)) == 0 {
      ZeroCrcFrameIsDropped(strict, f);
    } else {
      OneFrame(strict, f);
    }
  }

  // ---- the two ends in lockstep ----

  /** On every byte stream the two parsers are always in the same state, and the firmware emits
      every frame the Pi emits, at the same byte. */
  lemma Lockstep(p: Parser, stream: seq<byte>, k: nat)
    requires k < |stream|
    ensures Run(true, p, stream[..k]).0 == Run(false, p, stream[..k]).0
    ensures var q := Run(true, p, stream[..k]).0;
            Step(true, q, stream[k]).1.Some? ==> Step(false, q, stream[k]).1 == Step(true, q, stream[k]).1
  {
    hide DecodeRaw;
    SameStates(p, stream[..k]);
    var q := Run(true, p, stream[..k]).0;
    if q.Collect? && DecodeRaw(true, q.buf).Some? {
      StrictAcceptanceIsLenient(q.buf);
    }
  }

  lemma {:induction false} SameStates(p: Parser, stream: seq<byte>)
    ensures Run(true, p, stream).0 == Run(false, p, stream).0
    decreases |stream|
  {
    hide DecodeRaw;
    if stream != [] {
      SameStates(Step(true, p, stream[0]).0, stream[1..]);
    }
  }

  ghost predicate Subsequence<T>(a: seq<T>, b: seq<T>)
    decreases |b|
  {
    a == [] || (b != [] && (if a[0] == b[0] then Subsequence(a[1..], b[1..]) else Subsequence(a, b[1..])))
  }

  /** Over a whole stream, the frames of the Pi are a subsequence of those of the firmware. */
  lemma {:induction false} StrictFramesAmongLenient(p: Parser, stream: seq<byte>)
    ensures Subsequence(Run(true, p, stream).1, Run(false, p, stream).1)
    decreases |stream|
  {
    hide DecodeRaw;
    if stream != [] {
      var ch := stream[0];
      var next := Step(true, p, ch).0;
      StrictFramesAmongLenient(next, stream[1..]);
      var a, b := Run(true, next, stream[1..]).1, Run(false, next, stream[1..]).1;
      var s, l := Step(true, p, ch).1, Step(false, p, ch).1;
      if s.Some? {
        StrictAcceptanceIsLenient(p.buf);
        assert (Emitted(s) + a)[1..] == a && (Emitted(l) + b)[1..] == b;
      } else if l.Some? {
        assert Emitted(s) + a == a;
        SubsequenceExtends(a, b, l.value);
      } else {
        assert Emitted(s) + a == a && Emitted(l) + b == b;
      }
    }
  }

  lemma SubsequenceExtends<T>(a: seq<T>, b: seq<T>, x: T)
    requires Subsequence(a, b)
    ensures Subsequence(a, [x] + b)
    decreases |b|, 1
  {
    assert ([x] + b)[1..] == b;
    if a != [] && a[0] == x {
      SubsequenceDropsFirst(a, b);
    }
  }

  lemma {:induction false} SubsequenceDropsFirst<T>(a: seq<T>, b: seq<T>)
    requires a != [] && Subsequence(a, b)
    ensures Subsequence(a[1..], b)
    decreases |b|, 0
  {
    assert b == [b[0]] + b[1..];
    if a[0] == b[0] {
      SubsequenceExtends(a[1..], b[1..], b[0]);
    } else {
      SubsequenceDropsFirst(a, b[1..]);
      SubsequenceExtends(a[1..], b[1..], b[0]);
    }
  }
}
