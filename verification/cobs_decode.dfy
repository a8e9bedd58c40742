// The two COBS decoders of the link.  The Pi's decoder is strict: a block that claims more
// bytes than are left is corrupt.  The firmware's decoder is lenient on the last block and
// stops at the capacity of its output buffer.
module CobsDecode {
  import opened Words
  import opened Cobs

  // The zero a block stands for: none after a full block, none at the end of the data.
  function Gap(code: byte, rest: seq<byte>): seq<byte> {
    if code < 0xFF && rest != [] then [0] else []
  }

  function StrictDecode(x: seq<byte>): Option<seq<byte>>
    decreases |x|
  {
    if x == [] then Some([])
    else if x[0] == 0 || |x| < x[0] then None
    else
      Continue(x[1..x[0]] + Gap(x[0], x[x[0]..]), StrictDecode(x[x[0]..]))
  }

  function Continue(front: seq<byte>, d: Option<seq<byte>>): Option<seq<byte>> {
    if d.None? then None else Some(front + d.value)
  }

  datatype Decoded = Ok(data: seq<byte>) | Corrupt | Overflow

  /** Number of bytes the first block of x occupies for the lenient decoder. */
  function BlockEnd(x: seq<byte>): nat
    requires x != []
  {
    Min(x[0], |x|)
  }

  function LenientDecode(x: seq<byte>, capacity: nat): Decoded
    decreases |x|
  {
    if x == [] then Ok([])
    else if x[0] == 0 then Corrupt
    else
      var rest := x[BlockEnd(x)..];
      var block := x[1..BlockEnd(x)] + Gap(x[0], rest);
      if |block| > capacity then Overflow
      else Prepend(block, LenientDecode(rest, capacity - |block|))
  }

  function Prepend(front: seq<byte>, d: Decoded): Decoded {
    if d.Ok? then Ok(front + d.data) else d
  }

  // ---- decoder loops ----

  /** cobs_decode of the Pi: the empty vector also stands for corrupt input. */
  method DecodeOrEmpty(src: seq<byte>) returns (result: seq<byte>)
    ensures StrictDecode(src).Some? ==> result == StrictDecode(src).value
    ensures StrictDecode(src).None? ==> result == []
  {
    hide Continue;
    result := [];
    var i := 0;
    ContinueTwice([], [], StrictDecode(src));
    assert src[0..] == src;
    while i < |src|
      invariant 0 <= i <= |src|
      invariant StrictDecode(src) == Continue(result, StrictDecode(src[i..]))
    {
      var code := src[i];
      ghost var start, done := i, result;
      i := i + 1;
      if code == 0 {
        ContinueNone(result);
        return [];
      }
      for k := 1 to code
        invariant i == start + k <= |src|
        invariant result == done + src[start + 1..i]
      {
        if i >= |src| {
          ContinueNone(done);
          return [];
        }
        result := result + [src[i]];
        i := i + 1;
      }
      assert src[start..][code..] == src[i..];
      assert src[start..][1..code] == src[start + 1..i];
      if code < 0xFF && i < |src| {
        result := result + [0x00];
      }
      assert result == done + (src[start + 1..i] + Gap(code, src[i..]));
      ContinueTwice(done, src[start + 1..i] + Gap(code, src[i..]), StrictDecode(src[i..]));
    }
    ContinueEnd(result);
  }

  /** cobs_decode of the simulator, which tells corrupt input from empty data. */
  method DecodeOrNone(src: seq<byte>) returns (result: Option<seq<byte>>)
    ensures result == StrictDecode(src)
  {
    hide Continue;
    var out, i := [], 0;
    ContinueTwice([], [], StrictDecode(src));
    assert src[0..] == src;
    while i < |src|
      invariant 0 <= i <= |src|
      invariant StrictDecode(src) == Continue(out, StrictDecode(src[i..]))
    {
      var code := src[i];
      ghost var start, done := i, out;
      i := i + 1;
      if code == 0 {
        ContinueNone(out);
        return None;
      }
      for k := 1 to code
        invariant i == start + k <= |src|
        invariant out == done + src[start + 1..i]
      {
        if i >= |src| {
          ContinueNone(done);
          return None;
        }
        out := out + [src[i]];
        i := i + 1;
      }
      assert src[start..][code..] == src[i..];
      assert src[start..][1..code] == src[start + 1..i];
      if code < 0xFF && i < |src| {
        out := out + [0x00];
      }
      assert out == done + (src[start + 1..i] + Gap(code, src[i..]));
      ContinueTwice(done, src[start + 1..i] + Gap(code, src[i..]), StrictDecode(src[i..]));
    }
    ContinueEnd(out);
    result := Some(out);
  }

  lemma ContinueNone(a: seq<byte>)
    ensures Continue(a, None).None?
  {
  }

  lemma ContinueEnd(a: seq<byte>)
    ensures Continue(a, Some([])) == Some(a)
  {
    assert a + [] == a;
  }

  lemma ContinueTwice(a: seq<byte>, b: seq<byte>, d: Option<seq<byte>>)
    ensures Continue(a, Continue(b, d)) == Continue(a + b, d)
    ensures Continue([], d) == d
  {
    if d.Some? {
      assert a + (b + d.value) == a + b + d.value;
      assert [] + d.value == d.value;
    }
  }

  const CORRUPT := -1
  const OVERFLOW := -2

  function ReturnCode(d: Decoded): int {
    match d
    case Ok(data) => |data|
    case Corrupt => CORRUPT
    case Overflow => OVERFLOW
  }

  /** The inner loop of the firmware's cobs_decode: copies the bytes of one block. */
  method CopyBlock(src: seq<byte>, start: nat, code: byte, dst: array<byte>, begin: nat, capacity: nat)
    returns (i: nat, out: nat, full: bool)
    requires 0 < start <= |src| && code > 0 && begin <= capacity <= dst.Length
    modifies dst
    ensures full <==> begin + Min(code - 1, |src| - start) > capacity
    ensures !full ==> i == start + Min(code - 1, |src| - start) && out == begin + (i - start)
    ensures !full ==> dst[..out] == old(dst[..begin]) + src[start..i]
    ensures forall j :: capacity <= j < dst.Length ==> dst[j] == old(dst[j])
  {
    i, out, full := start, begin, false;
    var k := 1;
    while k < code && i < |src|
      invariant 1 <= k <= code && i == start + k - 1 <= |src|
      invariant out == begin + k - 1 <= capacity
      invariant dst[..out] == old(dst[..begin]) + src[start..i]
      invariant forall j :: capacity <= j < dst.Length ==> dst[j] == old(dst[j])
    {
      if out >= capacity {
        full := true;
        return;
      }
      dst[out] := src[i];
      out := out + 1;
      i := i + 1;
      k := k + 1;
    }
  }

  /** cobs_decode of the firmware: writes dst in place, returns the length or an error. */
  method DecodeInto(src: seq<byte>, dst: array<byte>, capacity: nat) returns (r: int)
    requires |src| < 0x1_0000 && capacity <= dst.Length
    modifies dst
    ensures r == ReturnCode(LenientDecode(src, capacity))
    ensures r >= 0 ==> r <= capacity && dst[..r] == LenientDecode(src, capacity).data
    ensures dst[capacity..] == old(dst[capacity..])
    ensures r >= -2 && (|src| <= capacity ==> r != -2) && (src != [] && src[0] == 0 ==> r == -1)
  {
    hide LenientDecode, Prepend, Gap, BlockEnd;
    CodesAre(src, capacity);
    var i, out := 0, 0;
    PrependNothing(LenientDecode(src, capacity));
    assert src[0..] == src && dst[..0] == [];
    while i < |src|
      invariant 0 <= i <= |src| && 0 <= out <= capacity
      invariant LenientDecode(src, capacity) == Prepend(dst[..out], LenientDecode(src[i..], capacity - out))
      invariant forall j :: capacity <= j < dst.Length ==> dst[j] == old(dst[j])
    {
      var code := src[i];
      ghost var at, done := i, dst[..out];
      if code == 0 {
        NoBlock(src, capacity, at, done);
        return CORRUPT;
      }
      var full: bool;
      NextBlock(src, capacity, at, done, at + 1 + Min(code - 1, |src| - at - 1));
      i, out, full := CopyBlock(src, i + 1, code, dst, out, capacity);
      if full {
        return OVERFLOW;
      }
      if code < 0xFF && i < |src| {
        if out >= capacity {
          return OVERFLOW;
        }
        dst[out] := 0x00;
        out := out + 1;
        assert dst[..out] == done + src[at + 1..i] + [0];
      } else {
        assert dst[..out] == done + src[at + 1..i] + [];
      }
    }
    LenientStep(src[i..], capacity - out);
    PrependEnd(dst[..out]);
    r := out;
  }

  lemma NoBlock(src: seq<byte>, capacity: nat, at: nat, done: seq<byte>)
    requires at < |src| && src[at] == 0 && |done| <= capacity
    requires LenientDecode(src, capacity) == Prepend(done, LenientDecode(src[at..], capacity - |done|))
    ensures LenientDecode(src, capacity) == Corrupt
  {
    hide LenientDecode;
    LenientStep(src[at..], capacity - |done|);
  }

  // What one block of the input, from position at to i, adds to what has been decoded.
  lemma NextBlock(src: seq<byte>, capacity: nat, at: nat, done: seq<byte>, i: nat)
    requires at < |src| && src[at] != 0 && |done| <= capacity
    requires i == at + 1 + Min(src[at] - 1, |src| - at - 1)
    requires LenientDecode(src, capacity) == Prepend(done, LenientDecode(src[at..], capacity - |done|))
    ensures i <= |src|
    ensures var out, gap := |done| + (i - at - 1), if src[at] < 0xFF && i < |src| then [0] else [];
            if out + |gap| > capacity then LenientDecode(src, capacity) == Overflow
            else LenientDecode(src, capacity) ==
                   Prepend(done + src[at + 1..i] + gap, LenientDecode(src[i..], capacity - (out + |gap|)))
  {
    hide LenientDecode, Prepend;
    var x, room := src[at..], capacity - |done|;
    LenientStep(x, room);
    PrependError(done);
    assert BlockEnd(x) == i - at;
    SliceOfTail(src, at, BlockEnd(x));
    var block := src[at + 1..i] + Gap(src[at], src[i..]);
    if |block| <= room {
      PrependTwice(done, block, LenientDecode(src[i..], room - |block|));
      assert done + block == done + src[at + 1..i] + Gap(src[at], src[i..]);
    }
  }

  lemma CodesAre(x: seq<byte>, capacity: nat)
    ensures var r := ReturnCode(LenientDecode(x, capacity));
            r >= -2 && (|x| <= capacity ==> r != -2) && (x != [] && x[0] == 0 ==> r == -1)
  {
    hide LenientDecode;
    LenientStep(x, capacity);
    OverflowNeedsMore(x, capacity);
  }

  /** An overflow is reported only when the input is longer than the capacity; and where there is room
      for everything the result does not depend on how much. */
  lemma {:induction false} OverflowNeedsMore(x: seq<byte>, capacity: nat)
    ensures |x| <= capacity ==> !LenientDecode(x, capacity).Overflow?
    ensures LenientDecode(x, capacity).Overflow? || LenientDecode(x, capacity) == LenientDecode(x, |x| + capacity)
    decreases |x|
  {
    if x != [] && x[0] != 0 {
      var rest := x[BlockEnd(x)..];
      var block := x[1..BlockEnd(x)] + Gap(x[0], rest);
      if |block| <= capacity {
        OverflowNeedsMore(rest, capacity - |block|);
        MoreRoom(rest, capacity - |block|, |x| + capacity - |block|);
      }
    }
  }

  lemma {:induction false} MoreRoom(x: seq<byte>, capacity: nat, more: nat)
    requires capacity <= more
    ensures LenientDecode(x, capacity).Overflow? || LenientDecode(x, capacity) == LenientDecode(x, more)
    decreases |x|
  {
    if x != [] && x[0] != 0 {
      var rest := x[BlockEnd(x)..];
      var block := x[1..BlockEnd(x)] + Gap(x[0], rest);
      if |block| <= capacity {
        MoreRoom(rest, capacity - |block|, more - |block|);
      }
    }
  }

  lemma SliceOfTail(s: seq<byte>, a: nat, n: nat)
    requires 1 <= n && a + n <= |s|
    ensures s[a..][n..] == s[a + n..] && s[a..][1..n] == s[a + 1..a + n]
  {
  }

  lemma LenientStep(x: seq<byte>, capacity: nat)
    ensures x == [] ==> LenientDecode(x, capacity) == Ok([])
    ensures x != [] && x[0] == 0 ==> LenientDecode(x, capacity) == Corrupt
    ensures x != [] && x[0] != 0 ==>
              var rest := x[BlockEnd(x)..];
              var block := x[1..BlockEnd(x)] + Gap(x[0], rest);
              LenientDecode(x, capacity) ==
                if |block| > capacity then Overflow else Prepend(block, LenientDecode(rest, capacity - |block|))
  {
  }

  lemma PrependNothing(d: Decoded)
    ensures Prepend([], d) == d
  {
    if d.Ok? {
      assert [] + d.data == d.data;
    }
  }

  lemma PrependError(a: seq<byte>)
    ensures Prepend(a, Corrupt) == Corrupt && Prepend(a, Overflow) == Overflow
  {
  }

  lemma PrependEnd(a: seq<byte>)
    ensures Prepend(a, Ok([])) == Ok(a)
  {
    assert a + [] == a;
  }

  lemma PrependTwice(a: seq<byte>, b: seq<byte>, d: Decoded)
    ensures Prepend(a, Prepend(b, d)) == Prepend(a + b, d)
  {
    if d.Ok? {
      assert a + (b + d.data) == a + b + d.data;
    }
  }

  // ---- the encoding is zero-free, short, and inverted by the decoder ----

  /** Encodings contain no delimiter. */
  lemma {:induction false} EncodeIsZeroFree(s: seq<byte>)
    ensures ZeroFree(Encode(s))
    decreases |s|
  {
    var n := Run(s, MAX_RUN);
    if n == MAX_RUN {
      EncodeIsZeroFree(s[n..]);
    } else if n < |s| {
      EncodeIsZeroFree(s[n + 1..]);
    }
  }

  /** The overhead is one byte and at most one more for each 254 bytes of data. */
  lemma {:induction false} EncodeLength(s: seq<byte>)
    ensures |s| + 1 <= |Encode(s)| <= |s| + |s| / 254 + 1
    decreases |s|
  {
    var n := Run(s, MAX_RUN);
    if n == MAX_RUN {
      EncodeLength(s[n..]);
    } else if n < |s| {
      EncodeLength(s[n + 1..]);
    }
  }

  lemma DecodeBlock(code: byte, run: seq<byte>, rest: seq<byte>)
    requires 1 <= code == |run| + 1
    ensures StrictDecode([code] + run + rest) == Continue(run + Gap(code, rest), StrictDecode(rest))
  {
    var x := [code] + run + rest;
    assert x[code..] == rest && x[1..code] == run;
  }

  /** Decoding inverts encoding, for payloads of every length, full blocks included. */
  lemma {:induction false} RoundTrip(s: seq<byte>)
    ensures StrictDecode(Encode(s)) == Some(s)
    decreases |s|
  {
    hide Encode, StrictDecode;
    var n := Run(s, MAX_RUN);
    var run := s[..n];
    if n == MAX_RUN {
      var rest := s[n..];
      EncodeFullBlock(run, rest);
      DecodeBlock(255, run, Encode(rest));
      RoundTrip(rest);
      assert run + rest == s && run + [] + rest == s;
    } else if n == |s| {
      assert run == s;
      EncodeLastBlock(run);
      assert [n + 1] + run + [] == [n + 1] + run;
      DecodeBlock(n + 1, run, []);
      DecodeNothing();
      assert run + [] + [] == s;
    } else {
      var rest := s[n + 1..];
      assert run + [0] + rest == s;
      EncodeShortBlock(run, rest);
      EncodeNotEmpty(rest);
      DecodeBlock(n + 1, run, Encode(rest));
      RoundTrip(rest);
    }
  }

  lemma DecodeNothing()
    ensures StrictDecode([]) == Some([])
  {
  }

  lemma EncodeNotEmpty(s: seq<byte>)
    ensures Encode(s) != []
  {
  }

  /** The code byte of the last block the strict decoder reads. */
  function LastCode(x: seq<byte>): byte
    requires x != [] && StrictDecode(x).Some?
    decreases |x|
  {
    if x[x[0]..] == [] then x[0] else LastCode(x[x[0]..])
  }

  lemma {:induction false} EncodeEndsInShortBlock(s: seq<byte>)
    ensures StrictDecode(Encode(s)).Some? && LastCode(Encode(s)) < 0xFF
    decreases |s|
  {
    RoundTrip(s);
    var n := Run(s, MAX_RUN);
    var x := Encode(s);
    if n == MAX_RUN {
      EncodeEndsInShortBlock(s[n..]);
      assert x[255..] == Encode(s[n..]);
    } else if n == |s| {
      assert x[n + 1..] == [];
    } else {
      EncodeEndsInShortBlock(s[n + 1..]);
      assert x[n + 1..] == Encode(s[n + 1..]);
    }
  }

  lemma {:induction false} SplitBlock(x: seq<byte>)
    requires x != [] && StrictDecode(x).Some?
    ensures 1 <= x[0] <= |x| && x == [x[0]] + x[1..x[0]] + x[x[0]..]
    ensures StrictDecode(x[x[0]..]).Some?
    ensures StrictDecode(x).value == x[1..x[0]] + Gap(x[0], x[x[0]..]) + StrictDecode(x[x[0]..]).value
  {
  }

  lemma {:induction false} DecodeThenEncode(x: seq<byte>)
    requires x != [] && ZeroFree(x) && StrictDecode(x).Some? && LastCode(x) < 0xFF
    ensures Encode(StrictDecode(x).value) == x
    decreases |x|
  {
    hide Encode, StrictDecode;
    SplitBlock(x);
    var c := x[0];
    var run, rest := x[1..c], x[c..];
    if rest == [] {
      DecodeNothing();
      assert run + [] + [] == run;
      EncodeLastBlock(run);
      assert [c] + run + [] == [c] + run;
    } else {
      DecodeThenEncode(rest);
      var d := StrictDecode(rest).value;
      if c == 0xFF {
        EncodeFullBlock(run, d);
        assert run + [] + d == run + d;
      } else {
        EncodeShortBlock(run, d);
      }
    }
  }

  /** Exactly which decodable strings are encodings of what they decode to. */
  lemma CanonicalIff(x: seq<byte>)
    requires StrictDecode(x).Some?
    ensures Encode(StrictDecode(x).value) == x <==> x != [] && ZeroFree(x) && LastCode(x) < 0xFF
  {
    var s := StrictDecode(x).value;
    if Encode(s) == x {
      EncodeIsZeroFree(s);
      EncodeEndsInShortBlock(s);
    } else if x != [] && ZeroFree(x) && LastCode(x) < 0xFF {
      DecodeThenEncode(x);
    }
  }

  // ---- lenient against strict ----

  /** x with the code byte of a truncated last block replaced by what is really there. */
  function Repair(x: seq<byte>): (r: seq<byte>)
    ensures |r| == |x|
    decreases |x|
  {
    if x == [] || x[0] == 0 then x
    else if |x| < x[0] then (if |x| < 0x100 then [|x|] + x[1..] else x)
    else x[..x[0]] + Repair(x[x[0]..])
  }

  ghost predicate Agree(lenient: Decoded, strict: Option<seq<byte>>, capacity: nat) {
    && (lenient.Ok? <==> strict.Some? && |strict.value| <= capacity)
    && (lenient.Ok? ==> lenient.data == strict.value)
  }

  lemma AgreeOnTruncated(x: seq<byte>, capacity: nat)
    requires x != [] && |x| < x[0]
    ensures Agree(LenientDecode(x, capacity), StrictDecode(Repair(x)), capacity)
  {
    var r := Repair(x);
    assert r[|x|..] == [] && r[1..|x|] == x[1..];
    assert x[BlockEnd(x)..] == [];
    assert x[1..] + [] + [] == x[1..];
  }

  lemma AgreeWithBlock(block: seq<byte>, lenient: Decoded, strict: Option<seq<byte>>, capacity: nat)
    requires |block| <= capacity && Agree(lenient, strict, capacity - |block|)
    ensures Agree(Prepend(block, lenient), Continue(block, strict), capacity)
  {
  }

  lemma StrictStep(x: seq<byte>)
    requires x != [] && 0 < x[0] <= |x|
    ensures StrictDecode(x) == Continue(x[1..x[0]] + Gap(x[0], x[x[0]..]), StrictDecode(x[x[0]..]))
  {
  }

  lemma RepairStep(x: seq<byte>)
    requires x != [] && 0 < x[0] <= |x|
    ensures var r, c := Repair(x), x[0];
            && r != [] && r[0] == c <= |r| && r[c..] == Repair(x[c..]) && r[1..c] == x[1..c]
            && (Repair(x[c..]) == [] <==> x[c..] == [])
  {
    var c := x[0];
    assert Repair(x) == x[..c] + Repair(x[c..]);
  }

  /** The lenient decoder is the strict decoder on the repaired input, cut at the capacity. */
  lemma {:induction false} LenientIsStrictOnRepaired(x: seq<byte>, capacity: nat)
    ensures LenientDecode(x, capacity).Ok? <==>
              StrictDecode(Repair(x)).Some? && |StrictDecode(Repair(x)).value| <= capacity
    ensures LenientDecode(x, capacity).Ok? ==> LenientDecode(x, capacity).data == StrictDecode(Repair(x)).value
    decreases |x|
  {
    if x == [] || x[0] == 0 {
    } else if |x| < x[0] {
      AgreeOnTruncated(x, capacity);
    } else {
      hide LenientDecode, StrictDecode, Repair;
      var c := x[0];
      var rest := x[c..];
      var block := x[1..c] + Gap(c, rest);
      LenientStep(x, capacity);
      RepairStep(x);
      StrictStep(Repair(x));
      assert Gap(c, Repair(rest)) == Gap(c, rest);
      if |block| <= capacity {
        LenientIsStrictOnRepaired(rest, capacity - |block|);
        AgreeWithBlock(block, LenientDecode(rest, capacity - |block|), StrictDecode(Repair(rest)), capacity);
      }
    }
  }

  lemma {:induction false} DecodableNeedsNoRepair(x: seq<byte>)
    requires StrictDecode(x).Some?
    ensures Repair(x) == x
    decreases |x|
  {
    if x != [] {
      DecodableNeedsNoRepair(x[x[0]..]);
      assert x == x[..x[0]] + x[x[0]..];
    }
  }

  /** Whatever the strict decoder accepts, the lenient one decodes to the same bytes. */
  lemma StrictImpliesLenient(x: seq<byte>, capacity: nat)
    requires StrictDecode(x).Some? && |StrictDecode(x).value| <= capacity
    ensures LenientDecode(x, capacity) == Ok(StrictDecode(x).value)
  {
    DecodableNeedsNoRepair(x);
    LenientIsStrictOnRepaired(x, capacity);
  }

  function DropLast(s: seq<byte>): seq<byte>
    requires s != []
  {
    s[..|s| - 1]
  }

  lemma RepairBlock(code: byte, run: seq<byte>, rest: seq<byte>)
    requires 1 <= code == |run| + 1
    ensures Repair([code] + run + rest) == [code] + run + Repair(rest)
  {
    var x := [code] + run + rest;
    assert x[code..] == rest && x[..code] == [code] + run;
  }

  /** Losing the last byte of an encoding: the strict decoder notices unless the payload
      ends in zero, the lenient one decodes to the payload without its last byte. */
  lemma {:induction false} TruncatedEncoding(s: seq<byte>)
    requires 0 < |s| < MAX_RUN
    ensures Encode(s) != []
    ensures StrictDecode(DropLast(Encode(s))) == if s[|s| - 1] == 0 then Some(DropLast(s)) else None
    ensures StrictDecode(Repair(DropLast(Encode(s)))) == Some(DropLast(s))
    ensures Encode(s)[|Encode(s)| - 1] == if s[|s| - 1] == 0 then 1 else s[|s| - 1]
    decreases |s|
  {
    hide Encode, StrictDecode, Repair;
    var n := Run(s, MAX_RUN);
    var run := s[..n];
    if n == |s| {
      assert run == s;
      EncodeLastBlock(run);
      TruncatedBlock(n, run);
      assert DropLast(Encode(s)) == [n + 1] + DropLast(run);
    } else {
      var rest := s[n + 1..];
      assert run + [0] + rest == s;
      EncodeShortBlock(run, rest);
      EncodeNotEmpty(rest);
      assert DropLast(Encode(s)) == [n + 1] + run + DropLast(Encode(rest));
      if rest == [] {
        EncodeLastBlock([]);
        assert DropLast(Encode(rest)) == [];
        DecodeBlock(n + 1, run, []);
        RepairBlock(n + 1, run, []);
        RepairNothing();
        DecodeNothing();
        assert run + [] + [] == DropLast(s);
      } else {
        TruncatedEncoding(rest);
        EncodeAtLeastTwo(rest);
        assert run + [0] + DropLast(rest) == DropLast(s);
        BlockBeforeTruncation(n, run, DropLast(Encode(rest)));
      }
    }
  }

  lemma BlockBeforeTruncation(n: nat, run: seq<byte>, y: seq<byte>)
    requires n == |run| < MAX_RUN && y != []
    ensures StrictDecode([n + 1] + run + y) == Continue(run + [0], StrictDecode(y))
    ensures StrictDecode(Repair([n + 1] + run + y)) == Continue(run + [0], StrictDecode(Repair(y)))
  {
    hide StrictDecode, Repair;
    DecodeBlock(n + 1, run, y);
    RepairBlock(n + 1, run, y);
    DecodeBlock(n + 1, run, Repair(y));
  }

  lemma EncodeAtLeastTwo(s: seq<byte>)
    requires s != []
    ensures |Encode(s)| >= 2
  {
  }

  lemma RepairNothing()
    ensures Repair([]) == []
  {
  }

  // A last block that lost its last byte.
  lemma TruncatedBlock(n: nat, run: seq<byte>)
    requires 0 < n == |run| < MAX_RUN && ZeroFree(run)
    ensures StrictDecode([n + 1] + DropLast(run)) == None
    ensures StrictDecode(Repair([n + 1] + DropLast(run))) == Some(DropLast(run))
  {
    var y := [n + 1] + DropLast(run);
    assert Repair(y) == [n] + DropLast(run);
    assert [n] + DropLast(run) + [] == [n] + DropLast(run);
    DecodeBlock(n, DropLast(run), []);
    assert DropLast(run) + [] + [] == DropLast(run);
  }
}
