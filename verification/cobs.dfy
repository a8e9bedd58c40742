// Consistent overhead byte stuffing (Cheshire and Baker, "Consistent Overhead Byte
// Stuffing", IEEE/ACM Transactions on Networking, 1999), as both ends of the serial
// link implement it.
//
// Encode is the block structure of the paper: a block is a code byte n + 1 followed by
// n <= 254 nonzero bytes; a block shorter than 254 stands for its bytes and a zero,
// except the last one.  The loops below, which patch the code byte of a block after
// having written its bytes, are proved equal to it.
module Cobs {
  import opened Words

  const MAX_RUN := 254

  datatype Option<+T> = None | Some(value: T)

  ghost predicate ZeroFree(s: seq<byte>) {
    forall i :: 0 <= i < |s| ==> s[i] != 0
  }

  /** Length of the longest zero-free prefix of s that is not longer than max. */
  function Run(s: seq<byte>, max: nat): (n: nat)
    ensures n <= |s| && n <= max
    ensures ZeroFree(s[..n])
    ensures n < max && n < |s| ==> s[n] == 0
  {
    if max == 0 || s == [] || s[0] == 0 then 0 else 1 + Run(s[1..], max - 1)
  }

  function Encode(s: seq<byte>): (r: seq<byte>)
    ensures |r| >= |s| + 1
    decreases |s|
  {
    var n := Run(s, MAX_RUN);
    if n == MAX_RUN then [255] + s[..n] + Encode(s[n..])
    else if n == |s| then [n + 1] + s
    else [n + 1] + s[..n] + Encode(s[n + 1..])
  }

  // ---- what one block of an encoding looks like ----

  lemma {:induction false} RunStopsAt(run: seq<byte>, rest: seq<byte>, max: nat)
    requires ZeroFree(run) && |run| <= max
    requires |run| == max || rest == [] || rest[0] == 0
    ensures Run(run + rest, max) == |run|
  {
    if run == [] {
      assert run + rest == rest;
    } else {
      assert (run + rest)[1..] == run[1..] + rest;
      RunStopsAt(run[1..], rest, max - 1);
    }
  }

  /** A stretch of fewer than 254 nonzero bytes and the zero behind it become a code byte, one more
      than their number, and the stretch. */
  lemma EncodeShortBlock(run: seq<byte>, rest: seq<byte>)
    requires ZeroFree(run) && |run| < 254
    ensures Encode(run + [0] + rest) == [|run| + 1] + run + Encode(rest)
  {
    var s := run + [0] + rest;
    assert s == run + ([0] + rest);
    RunStopsAt(run, [0] + rest, MAX_RUN);
    assert s[..|run|] == run && s[|run| + 1..] == rest;
  }

  /** 254 nonzero bytes become the code byte 255 and the stretch, whatever follows. */
  lemma EncodeFullBlock(run: seq<byte>, rest: seq<byte>)
    requires ZeroFree(run) && |run| == 254
    ensures Encode(run + rest) == [255] + run + Encode(rest)
  {
    RunStopsAt(run, rest, MAX_RUN);
    assert (run + rest)[..|run|] == run && (run + rest)[|run|..] == rest;
  }

  /** What is left at the end is a short stretch without a zero behind it. */
  lemma EncodeLastBlock(run: seq<byte>)
    requires ZeroFree(run) && |run| < 254
    ensures Encode(run) == [|run| + 1] + run
  {
    RunStopsAt(run, [], MAX_RUN);
    assert run + [] == run;
  }

  // ---- encoder loops ----

  // The state all three encoders share: buf[..cp] is final, buf[cp] is reserved for a code
  // byte, the bytes after it are the open block, and rest is still to be encoded.
  ghost predicate OpenBlock(target: seq<byte>, buf: seq<byte>, cp: int, rest: seq<byte>) {
    && 0 <= cp < |buf| <= cp + MAX_RUN
    && ZeroFree(buf[cp + 1..])
    && target == buf[..cp] + Encode(buf[cp + 1..] + rest)
  }

  lemma Regroup(a: seq<byte>, b: seq<byte>, c: seq<byte>)
    ensures a + (b + c) == (a + b) + c
  {
  }

  lemma CloseAtZero(target: seq<byte>, buf: seq<byte>, cp: int, rest: seq<byte>, reserved: byte)
    requires OpenBlock(target, buf, cp, [0] + rest)
    ensures OpenBlock(target, buf[cp := |buf| - cp] + [reserved], |buf|, rest)
  {
    hide Encode;
    var run := buf[cp + 1..];
    EncodeShortBlock(run, rest);
    assert run + ([0] + rest) == run + [0] + rest;
    var next := buf[cp := |buf| - cp] + [reserved];
    assert next[|buf| + 1..] + rest == rest;
    assert buf[..cp] + ([|run| + 1] + run) == next[..|buf|];
    Regroup(buf[..cp], [|run| + 1] + run, Encode(rest));
  }

  lemma AppendByte(target: seq<byte>, buf: seq<byte>, cp: int, b: byte, rest: seq<byte>)
    requires OpenBlock(target, buf, cp, [b] + rest) && b != 0 && |buf| - cp < MAX_RUN
    ensures OpenBlock(target, buf + [b], cp, rest)
  {
    assert buf[cp + 1..] + ([b] + rest) == (buf + [b])[cp + 1..] + rest;
    assert (buf + [b])[..cp] == buf[..cp];
  }

  lemma AppendAndCloseFull(target: seq<byte>, buf: seq<byte>, cp: int, b: byte, rest: seq<byte>,
                                              reserved: byte)
    requires OpenBlock(target, buf, cp, [b] + rest) && b != 0 && |buf| - cp == MAX_RUN
    ensures OpenBlock(target, (buf + [b])[cp := 255] + [reserved], |buf| + 1, rest)
  {
    hide Encode;
    var run := buf[cp + 1..] + [b];
    assert buf[cp + 1..] + ([b] + rest) == run + rest;
    EncodeFullBlock(run, rest);
    var next := (buf + [b])[cp := 255] + [reserved];
    assert next[|buf| + 2..] + rest == rest;
    assert buf[..cp] + ([255] + run) == next[..|buf| + 1];
    Regroup(buf[..cp], [255] + run, Encode(rest));
  }

  lemma CloseLast(target: seq<byte>, buf: seq<byte>, cp: int)
    requires OpenBlock(target, buf, cp, [])
    ensures target == buf[cp := |buf| - cp]
  {
    var run := buf[cp + 1..];
    assert run + [] == run;
    EncodeLastBlock(run);
  }

  lemma OpenFits(target: seq<byte>, buf: seq<byte>, cp: int, rest: seq<byte>)
    requires OpenBlock(target, buf, cp, rest)
    ensures 0 <= cp < |buf| <= cp + MAX_RUN
    ensures |target| >= |buf| + |rest|
  {
  }

  lemma OpenEmpty(src: seq<byte>, buf: seq<byte>)
    requires |buf| == 1
    ensures OpenBlock(Encode(src), buf, 0, src)
    ensures |Encode(src)| >= 1
  {
    assert buf[1..] + src == src;
  }

  /** The firmware's cobs_encode: dst is written in place, the length returned as a uint16_t. */
  method EncodeInto(src: seq<byte>, dst: array<byte>) returns (len: nat)
    requires |src| < 0x1_0000 && |Encode(src)| <= dst.Length
    modifies dst
    ensures dst[..|Encode(src)|] == Encode(src)
    ensures dst[|Encode(src)|..] == old(dst[|Encode(src)|..])
    ensures len == |Encode(src)| % 0x1_0000
  {
    hide Encode, OpenBlock;
    OpenEmpty(src, [dst[0]]);
    var i, codePtr, out := 0, 0, 1;
    var code: byte := 1;
    assert src[0..] == src && dst[..1] == [dst[0]];
    while i < |src|
      invariant 0 <= i <= |src| && 0 <= codePtr < out <= dst.Length
      invariant code == out - codePtr
      invariant OpenBlock(Encode(src), dst[..out], codePtr, src[i..])
      invariant forall k :: out <= k < dst.Length ==> dst[k] == old(dst[k])
    {
      ghost var buf, rest := dst[..out], src[i + 1..];
      assert src[i..] == [src[i]] + rest;
      OpenFits(Encode(src), buf, codePtr, src[i..]);
      if src[i] == 0 {
        CloseAtZero(Encode(src), buf, codePtr, rest, dst[out]);
        dst[codePtr] := code;
        assert dst[..out + 1] == buf[codePtr := code] + [dst[out]];
        code := 1;
        codePtr := out;
        out := out + 1;
        i := i + 1;
      } else {
        dst[out] := src[i];
        out := out + 1;
        i := i + 1;
        code := code + 1;
        assert dst[..out] == buf + [src[i - 1]];
        if code == 0xFF {
          OpenFits(Encode(src), buf, codePtr, src[i - 1..]);
          AppendFullFits(Encode(src), buf, codePtr, src[i - 1], rest);
          AppendAndCloseFull(Encode(src), buf, codePtr, src[i - 1], rest, dst[out]);
          dst[codePtr] := code;
          assert dst[..out + 1] == (buf + [src[i - 1]])[codePtr := 255] + [dst[out]];
          code := 1;
          codePtr := out;
          out := out + 1;
        } else {
          AppendByte(Encode(src), buf, codePtr, src[i - 1], rest);
        }
      }
    }
    assert src[i..] == [];
    OpenFits(Encode(src), dst[..out], codePtr, []);
    CloseLast(Encode(src), dst[..out], codePtr);
    ghost var buf := dst[..out];
    dst[codePtr] := code;
    assert dst[..out] == buf[codePtr := code];
    len := out % 0x1_0000;
  }

  // A full block is followed by one more code byte, for which there must be room.
  lemma AppendFullFits(target: seq<byte>, buf: seq<byte>, cp: int, b: byte, rest: seq<byte>)
    requires OpenBlock(target, buf, cp, [b] + rest) && b != 0 && |buf| - cp == MAX_RUN
    ensures |target| >= |buf| + 2
  {
    AppendAndCloseFull(target, buf, cp, b, rest, 0);
  }

  /** cobs_encode of the Pi and of the simulator: push back, then patch result[code_ptr]. */
  method EncodePush(src: seq<byte>) returns (result: seq<byte>)
    ensures result == Encode(src)
  {
    hide Encode, OpenBlock;
    if |src| == 0 {
      EncodeLastBlock([]);
      return [0x01];
    }
    var codePtr := 0;
    var code: byte := 1;
    result := [0];
    OpenEmpty(src, result);
    assert src[0..] == src;
    for i := 0 to |src|
      invariant code == |result| - codePtr
      invariant OpenBlock(Encode(src), result, codePtr, src[i..])
    {
      assert src[i..] == [src[i]] + src[i + 1..];
      OpenFits(Encode(src), result, codePtr, src[i..]);
      if src[i] == 0 {
        CloseAtZero(Encode(src), result, codePtr, src[i + 1..], 0);
        result := result[codePtr := code];
        code := 1;
        codePtr := |result|;
        result := result + [0];
      } else {
        ghost var buf := result;
        result := result + [src[i]];
        code := code + 1;
        if code == 0xFF {
          AppendAndCloseFull(Encode(src), buf, codePtr, src[i], src[i + 1..], 0);
          result := result[codePtr := code];
          code := 1;
          codePtr := |result|;
          result := result + [0];
        } else {
          AppendByte(Encode(src), buf, codePtr, src[i], src[i + 1..]);
        }
      }
    }
    OpenFits(Encode(src), result, codePtr, []);
    CloseLast(Encode(src), result, codePtr);
    result := result[codePtr := code];
  }

  /** cobs_encode of the frame generator: the counter lives in the output, out[code_idx] += 1. */
  method EncodeCountInPlace(data: seq<byte>) returns (out: seq<byte>)
    ensures out == Encode(data)
  {
    hide Encode, OpenBlock;
    var codeIdx := 0;
    out := [1];
    OpenEmpty(data, out);
    assert data[0..] == data;
    for i := 0 to |data|
      invariant 0 <= codeIdx < |out|
      invariant OpenBlock(Encode(data), out, codeIdx, data[i..])
      invariant out[codeIdx] == |out| - codeIdx
    {
      assert data[i..] == [data[i]] + data[i + 1..];
      OpenFits(Encode(data), out, codeIdx, data[i..]);
      ghost var buf := out;
      if data[i] == 0 {
        CloseAtZero(Encode(data), out, codeIdx, data[i + 1..], 1);
        out := out[codeIdx := out[codeIdx]];
        codeIdx := |out|;
        out := out + [1];
      } else {
        out := out + [data[i]];
        if |buf| - codeIdx < MAX_RUN {
          AppendByte(Encode(data), buf, codeIdx, data[i], data[i + 1..]);
          CodeByteIsFree(Encode(data), out, codeIdx, out[codeIdx] + 1, data[i + 1..]);
        } else {
          AppendAndCloseFull(Encode(data), buf, codeIdx, data[i], data[i + 1..], 1);
        }
        out := out[codeIdx := out[codeIdx] + 1];
        if out[codeIdx] == 0xFF {
          codeIdx := |out|;
          out := out + [1];
        }
      }
    }
    CloseLast(Encode(data), out, codeIdx);
  }

  // What the reserved byte holds does not matter while the block is open.
  lemma CodeByteIsFree(target: seq<byte>, buf: seq<byte>, cp: int, code: byte, rest: seq<byte>)
    requires OpenBlock(target, buf, cp, rest)
    ensures OpenBlock(target, buf[cp := code], cp, rest)
  {
    assert buf[cp := code][..cp] == buf[..cp] && buf[cp := code][cp + 1..] == buf[cp + 1..];
  }
}
