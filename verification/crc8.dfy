// The frame check byte: CRC-8 with polynomial x^8 + x^2 + x + 1, initial value 0,
// no reflection (the packet error code of section 5.4 of SMBus 2.0).
//
// The reference is the bit-serial division register (Shift, CrcFrom).  The
// table-driven loop of the firmware and the unmasked loop of the Python frame
// generator are both proved equal to it, and the error-detection properties are
// proved about the reference.
module Crc8 {
  import opened Words

  function Bits(b: byte): bv8 { b as bv8 }

  function Val(v: bv8): byte { v as int }

  /** One step of the division register: shift left, subtract the polynomial on carry. */
  function Shift(v: bv8): bv8 {
    if v & 0x80 == 0x80 then (v << 1) ^ 0x07 else v << 1
  }

  function ShiftByte(v: bv8): bv8 {
    Shift(Shift(Shift(Shift(Shift(Shift(Shift(Shift(v))))))))
  }

  // Addition of registers, coefficient by coefficient.
  function Plus(a: bv8, b: bv8): bv8 { a ^ b }

  function CrcFrom(crc: bv8, data: seq<byte>): bv8
    decreases |data|
  {
    if data == [] then crc else CrcFrom(ShiftByte(Plus(crc, Bits(data[0]))), data[1..])
  }

  function Crc(data: seq<byte>): byte {
    Val(CrcFrom(0, data))
  }

  // ---- bytes and bit vectors ----

  lemma BitsVal(v: bv8)
    ensures Bits(Val(v)) == v
  {
  }

  lemma ValBits(b: byte)
    ensures Val(Bits(b)) == b
  {
    var v := b as bv8;
    assert v as int <= b;
    assert v as int >= b;
  }

  // ---- the lookup table, sixteen rows of sixteen as in the source ----

  const ROW_0: seq<bv8> := [0x00, 0x07, 0x0E, 0x09, 0x1C, 0x1B, 0x12, 0x15, 0x38, 0x3F, 0x36, 0x31, 0x24, 0x23, 0x2A, 0x2D]
  const ROW_1: seq<bv8> := [0x70, 0x77, 0x7E, 0x79, 0x6C, 0x6B, 0x62, 0x65, 0x48, 0x4F, 0x46, 0x41, 0x54, 0x53, 0x5A, 0x5D]
  const ROW_2: seq<bv8> := [0xE0, 0xE7, 0xEE, 0xE9, 0xFC, 0xFB, 0xF2, 0xF5, 0xD8, 0xDF, 0xD6, 0xD1, 0xC4, 0xC3, 0xCA, 0xCD]
  const ROW_3: seq<bv8> := [0x90, 0x97, 0x9E, 0x99, 0x8C, 0x8B, 0x82, 0x85, 0xA8, 0xAF, 0xA6, 0xA1, 0xB4, 0xB3, 0xBA, 0xBD]
  const ROW_4: seq<bv8> := [0xC7, 0xC0, 0xC9, 0xCE, 0xDB, 0xDC, 0xD5, 0xD2, 0xFF, 0xF8, 0xF1, 0xF6, 0xE3, 0xE4, 0xED, 0xEA]
  const ROW_5: seq<bv8> := [0xB7, 0xB0, 0xB9, 0xBE, 0xAB, 0xAC, 0xA5, 0xA2, 0x8F, 0x88, 0x81, 0x86, 0x93, 0x94, 0x9D, 0x9A]
  const ROW_6: seq<bv8> := [0x27, 0x20, 0x29, 0x2E, 0x3B, 0x3C, 0x35, 0x32, 0x1F, 0x18, 0x11, 0x16, 0x03, 0x04, 0x0D, 0x0A]
  const ROW_7: seq<bv8> := [0x57, 0x50, 0x59, 0x5E, 0x4B, 0x4C, 0x45, 0x42, 0x6F, 0x68, 0x61, 0x66, 0x73, 0x74, 0x7D, 0x7A]
  const ROW_8: seq<bv8> := [0x89, 0x8E, 0x87, 0x80, 0x95, 0x92, 0x9B, 0x9C, 0xB1, 0xB6, 0xBF, 0xB8, 0xAD, 0xAA, 0xA3, 0xA4]
  const ROW_9: seq<bv8> := [0xF9, 0xFE, 0xF7, 0xF0, 0xE5, 0xE2, 0xEB, 0xEC, 0xC1, 0xC6, 0xCF, 0xC8, 0xDD, 0xDA, 0xD3, 0xD4]
  const ROW_A: seq<bv8> := [0x69, 0x6E, 0x67, 0x60, 0x75, 0x72, 0x7B, 0x7C, 0x51, 0x56, 0x5F, 0x58, 0x4D, 0x4A, 0x43, 0x44]
  const ROW_B: seq<bv8> := [0x19, 0x1E, 0x17, 0x10, 0x05, 0x02, 0x0B, 0x0C, 0x21, 0x26, 0x2F, 0x28, 0x3D, 0x3A, 0x33, 0x34]
  const ROW_C: seq<bv8> := [0x4E, 0x49, 0x40, 0x47, 0x52, 0x55, 0x5C, 0x5B, 0x76, 0x71, 0x78, 0x7F, 0x6A, 0x6D, 0x64, 0x63]
  const ROW_D: seq<bv8> := [0x3E, 0x39, 0x30, 0x37, 0x22, 0x25, 0x2C, 0x2B, 0x06, 0x01, 0x08, 0x0F, 0x1A, 0x1D, 0x14, 0x13]
  const ROW_E: seq<bv8> := [0xAE, 0xA9, 0xA0, 0xA7, 0xB2, 0xB5, 0xBC, 0xBB, 0x96, 0x91, 0x98, 0x9F, 0x8A, 0x8D, 0x84, 0x83]
  const ROW_F: seq<bv8> := [0xDE, 0xD9, 0xD0, 0xD7, 0xC2, 0xC5, 0xCC, 0xCB, 0xE6, 0xE1, 0xE8, 0xEF, 0xFA, 0xFD, 0xF4, 0xF3]

  const TABLE: seq<seq<bv8>> :=
    [ROW_0, ROW_1, ROW_2, ROW_3, ROW_4, ROW_5, ROW_6, ROW_7,
     ROW_8, ROW_9, ROW_A, ROW_B, ROW_C, ROW_D, ROW_E, ROW_F]

  lemma TableShape()
    ensures |TABLE| == 16 && forall r :: 0 <= r < 16 ==> |TABLE[r]| == 16
  {
  }

  lemma Nibbles(v: bv8)
    ensures v >> 4 < 16 && v & 0x0F < 16
    ensures ((v >> 4) << 4) | (v & 0x0F) == v
  {
  }

  function Lookup(v: bv8): bv8 {
    Nibbles(v);
    TableShape();
    TABLE[(v >> 4) as int][(v & 0x0F) as int]
  }

  // ShiftByte in closed form: the register is linear, so its eight steps are a sum of shifts.
  function ShiftSum(v: bv8): bv8 {
    var h, l := v >> 7, v >> 6;
    v ^ (v << 1) ^ (v << 2) ^ h ^ (h << 1) ^ (h << 2) ^ l ^ (l << 1) ^ (l << 2)
  }

  lemma ShiftByteIsShiftSum(v: bv8)
    ensures ShiftByte(v) == ShiftSum(v)
  {
  }

  predicate Row(t: seq<bv8>, base: bv8) {
    && |t| == 16
    && t[0] == ShiftSum(base | 0) && t[1] == ShiftSum(base | 1) && t[2] == ShiftSum(base | 2) && t[3] == ShiftSum(base | 3)
    && t[4] == ShiftSum(base | 4) && t[5] == ShiftSum(base | 5) && t[6] == ShiftSum(base | 6) && t[7] == ShiftSum(base | 7)
    && t[8] == ShiftSum(base | 8) && t[9] == ShiftSum(base | 9) && t[10] == ShiftSum(base | 10) && t[11] == ShiftSum(base | 11)
    && t[12] == ShiftSum(base | 12) && t[13] == ShiftSum(base | 13) && t[14] == ShiftSum(base | 14) && t[15] == ShiftSum(base | 15)
  }

  lemma RowAt(t: seq<bv8>, base: bv8, l: bv8)
    requires Row(t, base) && l < 16
    ensures t[l as int] == ShiftSum(base | l)
  {
    if l < 8 {
      if l < 4 {
        if l == 0 {} else if l == 1 {} else if l == 2 {} else {}
      } else {
        if l == 4 {} else if l == 5 {} else if l == 6 {} else {}
      }
    } else {
      if l < 12 {
        if l == 8 {} else if l == 9 {} else if l == 10 {} else {}
      } else {
        if l == 12 {} else if l == 13 {} else if l == 14 {} else {}
      }
    }
  }

  lemma Row0Ok() ensures Row(ROW_0, 0x00) {}
  lemma Row1Ok() ensures Row(ROW_1, 0x10) {}
  lemma Row2Ok() ensures Row(ROW_2, 0x20) {}
  lemma Row3Ok() ensures Row(ROW_3, 0x30) {}
  lemma Row4Ok() ensures Row(ROW_4, 0x40) {}
  lemma Row5Ok() ensures Row(ROW_5, 0x50) {}
  lemma Row6Ok() ensures Row(ROW_6, 0x60) {}
  lemma Row7Ok() ensures Row(ROW_7, 0x70) {}
  lemma Row8Ok() ensures Row(ROW_8, 0x80) {}
  lemma Row9Ok() ensures Row(ROW_9, 0x90) {}
  lemma RowAOk() ensures Row(ROW_A, 0xA0) {}
  lemma RowBOk() ensures Row(ROW_B, 0xB0) {}
  lemma RowCOk() ensures Row(ROW_C, 0xC0) {}
  lemma RowDOk() ensures Row(ROW_D, 0xD0) {}
  lemma RowEOk() ensures Row(ROW_E, 0xE0) {}
  lemma RowFOk() ensures Row(ROW_F, 0xF0) {}

  lemma RowOk(h: bv8)
    requires h < 16
    ensures |TABLE| == 16 && Row(TABLE[h as int], h << 4)
  {
    match h {
      case 0 => Row0Ok();
      case 1 => Row1Ok();
      case 2 => Row2Ok();
      case 3 => Row3Ok();
      case 4 => Row4Ok();
      case 5 => Row5Ok();
      case 6 => Row6Ok();
      case 7 => Row7Ok();
      case 8 => Row8Ok();
      case 9 => Row9Ok();
      case 10 => RowAOk();
      case 11 => RowBOk();
      case 12 => RowCOk();
      case 13 => RowDOk();
      case 14 => RowEOk();
      case 15 => RowFOk();
    }
  }

  /** Every one of the 256 table entries is eight steps of the register. */
  lemma TableIsBitwise(v: bv8)
    ensures Lookup(v) == ShiftByte(v)
  {
    Nibbles(v);
    TableShape();
    RowOk(v >> 4);
    RowAt(TABLE[(v >> 4) as int], (v >> 4) << 4, v & 0x0F);
    ShiftByteIsShiftSum(v);
  }

  // ---- the loops of the implementations ----

  /** crc8_compute of the firmware and of the Pi: one table lookup per byte. */
  method ComputeByTable(data: seq<byte>) returns (r: byte)
    ensures r == Crc(data)
  {
    hide Plus, Bits, ShiftByte, Lookup;
    var crc: bv8 := 0;
    var i := 0;
    while i < |data|
      invariant 0 <= i <= |data|
      invariant CrcFrom(crc, data[i..]) == CrcFrom(0, data)
    {
      TableIsBitwise(Plus(crc, Bits(data[i])));
      assert data[i..][1..] == data[i + 1..];
      crc := Lookup(Plus(crc, Bits(data[i])));
      i := i + 1;
    }
    r := Val(crc);
  }

  /** An unbounded Python integer, split at bit 8: its value is 256 * high + low. */
  datatype PyInt = PyInt(high: nat, low: bv8)

  function PyShift(crc: PyInt): PyInt {
    if crc.low & 0x80 == 0x80
    then PyInt(2 * crc.high + 1, (crc.low << 1) ^ 0x07)
    else PyInt(2 * crc.high, crc.low << 1)
  }

  /** crc8 of the frame generator: the accumulator is masked only after the last byte. */
  method ComputeUnmasked(data: seq<byte>) returns (r: byte)
    ensures r == Crc(data)
  {
    hide Plus, Bits, Shift, PyShift, ShiftByte;
    var crc := PyInt(0, 0);
    var i := 0;
    while i < |data|
      invariant 0 <= i <= |data|
      invariant CrcFrom(crc.low, data[i..]) == CrcFrom(0, data)
    {
      crc := crc.(low := Plus(crc.low, Bits(data[i])));
      ghost var start := crc.low;
      var k := 0;
      while k < 8
        invariant 0 <= k <= 8
        invariant crc.low == ShiftTimes(start, k)
      {
        PyShiftIsShift(crc);
        crc := PyShift(crc);
        k := k + 1;
      }
      EightShifts(start);
      assert data[i..][1..] == data[i + 1..];
      i := i + 1;
    }
    r := Val(crc.low);
  }

  lemma PyShiftIsShift(crc: PyInt)
    ensures PyShift(crc).low == Shift(crc.low)
  {
  }

  ghost function ShiftTimes(v: bv8, k: nat): bv8 {
    if k == 0 then v else Shift(ShiftTimes(v, k - 1))
  }

  lemma EightShifts(v: bv8)
    ensures ShiftTimes(v, 8) == ShiftByte(v)
  {
    hide Shift;
    assert ShiftTimes(v, 0) == v;
    assert ShiftTimes(v, 2) == Shift(ShiftTimes(v, 1));
    assert ShiftTimes(v, 4) == Shift(ShiftTimes(v, 3));
    assert ShiftTimes(v, 6) == Shift(ShiftTimes(v, 5));
    assert ShiftTimes(v, 8) == Shift(ShiftTimes(v, 7));
  }

  // ---- composition and linearity ----

  lemma {:induction false} CrcAppend(crc: bv8, a: seq<byte>, b: seq<byte>)
    ensures CrcFrom(crc, a + b) == CrcFrom(CrcFrom(crc, a), b)
    decreases |a|
  {
    hide Plus, Bits, ShiftByte;
    if a == [] {
      assert a + b == b;
    } else {
      assert (a + b)[1..] == a[1..] + b;
      CrcAppend(ShiftByte(Plus(crc, Bits(a[0]))), a[1..], b);
    }
  }

  lemma PlusLaws(a: bv8, b: bv8)
    ensures Plus(0, a) == a && Plus(a, 0) == a
    ensures Plus(a, b) == 0 <==> a == b
  {
  }

  lemma PlusRegroup(x: bv8, y: bv8, a: bv8, b: bv8)
    ensures Plus(Plus(x, y), Plus(a, b)) == Plus(Plus(x, a), Plus(y, b))
  {
    Regroup(x, y, a, b, x ^ y, a ^ b, x ^ a, y ^ b);
  }

  lemma Regroup(x: bv8, y: bv8, a: bv8, b: bv8, s: bv8, t: bv8, u: bv8, v: bv8)
    requires s == x ^ y && t == a ^ b && u == x ^ a && v == y ^ b
    ensures s ^ t == u ^ v
  {
  }

  lemma ShiftXor(a: bv8, b: bv8, c: bv8)
    requires c == a ^ b
    ensures Shift(c) == Shift(a) ^ Shift(b)
  {
    if a & 0x80 == 0x80 {
      if b & 0x80 == 0x80 { assert c & 0x80 == 0; } else { assert c & 0x80 == 0x80; }
    } else {
      if b & 0x80 == 0x80 { assert c & 0x80 == 0x80; } else { assert c & 0x80 == 0; }
    }
  }

  lemma ShiftPlus(a: bv8, b: bv8)
    ensures Shift(Plus(a, b)) == Plus(Shift(a), Shift(b))
  {
    hide Shift;
    ShiftXor(a, b, a ^ b);
  }

  lemma FourShiftsPlus(a: bv8, b: bv8)
    ensures Shift(Shift(Shift(Shift(Plus(a, b))))) == Plus(Shift(Shift(Shift(Shift(a)))), Shift(Shift(Shift(Shift(b)))))
  {
    hide Shift, Plus;
    ShiftPlus(a, b);
    ShiftPlus(Shift(a), Shift(b));
    ShiftPlus(Shift(Shift(a)), Shift(Shift(b)));
    ShiftPlus(Shift(Shift(Shift(a))), Shift(Shift(Shift(b))));
  }

  lemma ShiftBytePlus(a: bv8, b: bv8)
    ensures ShiftByte(Plus(a, b)) == Plus(ShiftByte(a), ShiftByte(b))
  {
    hide Shift, Plus;
    FourShiftsPlus(a, b);
    FourShiftsPlus(Shift(Shift(Shift(Shift(a)))), Shift(Shift(Shift(Shift(b)))));
  }

  function Difference(a: byte, b: byte): byte { Val(Plus(Bits(a), Bits(b))) }

  lemma DifferenceBits(a: byte, b: byte)
    ensures Bits(Difference(a, b)) == Plus(Bits(a), Bits(b))
    ensures Difference(a, b) == 0 <==> a == b
  {
    hide Plus, Bits, Val;
    BitsVal(Plus(Bits(a), Bits(b)));
    PlusLaws(Bits(a), Bits(b));
    ValBits(a);
    ValBits(b);
    ZeroBits();
  }

  lemma ZeroBits()
    ensures Bits(0) == 0 && Val(0) == 0
  {
  }

  function Differences(a: seq<byte>, b: seq<byte>): (r: seq<byte>)
    requires |a| == |b|
  {
    seq(|a|, i requires 0 <= i < |a| => Difference(a[i], b[i]))
  }

  /** The CRC is XOR-linear on messages of equal length. */
  lemma {:induction false} CrcLinear(x: bv8, y: bv8, a: seq<byte>, b: seq<byte>)
    requires |a| == |b|
    ensures CrcFrom(Plus(x, y), Differences(a, b)) == Plus(CrcFrom(x, a), CrcFrom(y, b))
    decreases |a|
  {
    hide Plus, Bits, Val, ShiftByte, Difference;
    if a == [] {
    } else {
      var p, q := Bits(a[0]), Bits(b[0]);
      DifferenceBits(a[0], b[0]);
      PlusRegroup(x, y, p, q);
      ShiftBytePlus(Plus(x, p), Plus(y, q));
      assert Differences(a, b)[1..] == Differences(a[1..], b[1..]);
      CrcLinear(ShiftByte(Plus(x, p)), ShiftByte(Plus(y, q)), a[1..], b[1..]);
    }
  }

  // ---- error detection ----

  ghost predicate Zeros(s: seq<byte>) { forall i :: 0 <= i < |s| ==> s[i] == 0 }

  lemma ShiftByteZero(v: bv8)
    ensures ShiftByte(v) == 0 <==> v == 0
  {
  }

  // A register that is nonzero stays nonzero over zero bytes, and a zero one stays zero.
  lemma {:induction false} CrcOfZeros(crc: bv8, s: seq<byte>)
    requires Zeros(s)
    ensures CrcFrom(crc, s) == 0 <==> crc == 0
    decreases |s|
  {
    hide Plus, Bits, Val, ShiftByte;
    if s != [] {
      ZeroBits();
      PlusLaws(crc, 0);
      ShiftByteZero(crc);
      CrcOfZeros(ShiftByte(crc), s[1..]);
    }
  }

  // Two equally long messages have the same CRC iff their difference has CRC 0.
  lemma SameCrcIffDifferenceZero(a: seq<byte>, b: seq<byte>)
    requires |a| == |b|
    ensures Crc(a) == Crc(b) <==> CrcFrom(0, Differences(a, b)) == 0
  {
    hide Plus, Bits, Val, ShiftByte, Difference;
    CrcLinear(0, 0, a, b);
    PlusLaws(0, 0);
    BitsVal(CrcFrom(0, a));
    BitsVal(CrcFrom(0, b));
    PlusLaws(CrcFrom(0, a), CrcFrom(0, b));
  }

  // The register after a difference that is zero before position j and from position k on
  // is zero only if it is zero after the bytes in between.
  lemma OnlyTheMiddleMatters(a: seq<byte>, b: seq<byte>, j: nat, k: nat)
    requires |a| == |b| && j <= k <= |a|
    requires forall i :: 0 <= i < j || k <= i < |a| ==> a[i] == b[i]
    ensures Crc(a) == Crc(b) <==> CrcFrom(0, Differences(a, b)[j..k]) == 0
  {
    hide Plus, Bits, Val, ShiftByte, Difference;
    var d := Differences(a, b);
    SameCrcIffDifferenceZero(a, b);
    forall i | 0 <= i < j || k <= i < |a|
      ensures d[i] == 0
    {
      DifferenceBits(a[i], b[i]);
    }
    var before, mid, after := d[..j], d[j..k], d[k..];
    assert d == before + (mid + after);
    CrcAppend(0, before, mid + after);
    CrcOfZeros(0, before);
    CrcAppend(0, mid, after);
    CrcOfZeros(CrcFrom(0, mid), after);
  }

  /** Changing one byte of a message always changes its CRC. */
  lemma DetectsByteChange(sent: seq<byte>, got: seq<byte>, j: nat)
    requires |sent| == |got| && j < |sent|
    requires sent[j] != got[j] && forall i :: 0 <= i < |sent| && i != j ==> sent[i] == got[i]
    ensures Crc(sent) != Crc(got)
  {
    hide Plus, Bits, Val, ShiftByte, Difference;
    var d := Differences(sent, got);
    OnlyTheMiddleMatters(sent, got, j, j + 1);
    assert d[j..j + 1] == [d[j]];
    DifferenceBits(sent[j], got[j]);
    var w := Bits(d[j]);
    BitsVal(w);
    ZeroBits();
    ValBits(d[j]);
    PlusLaws(w, 0);
    ShiftByteZero(w);
    assert CrcFrom(0, [d[j]]) == ShiftByte(w);
  }

  lemma BurstLeavesRegisterNonzero(p: bv8, q: bv8, pattern: bv8, k: bv4)
    requires pattern != 0 && k <= 8
    requires ((p as bv16) << 8) | (q as bv16) == (pattern as bv16) << k
    ensures ShiftByte(Plus(ShiftByte(p), q)) != 0
  {
  }

  /** Two adjacent registers seen as one 16-bit word, the first one on the left. */
  function Joined(p: bv8, q: bv8): bv16 { ((p as bv16) << 8) | (q as bv16) }

  /** Every error burst of at most eight bits is detected, also when it spans two bytes. */
  lemma DetectsBurst(sent: seq<byte>, got: seq<byte>, j: nat, pattern: bv8, k: bv4)
    requires |sent| == |got| && j + 1 < |sent|
    requires forall i :: 0 <= i < |sent| && i != j && i != j + 1 ==> sent[i] == got[i]
    requires pattern != 0 && k <= 8
    requires Joined(Plus(Bits(sent[j]), Bits(got[j])), Plus(Bits(sent[j + 1]), Bits(got[j + 1])))
          == (pattern as bv16) << k
    ensures Crc(sent) != Crc(got)
  {
    var p, q := Plus(Bits(sent[j]), Bits(got[j])), Plus(Bits(sent[j + 1]), Bits(got[j + 1]));
    BurstLeavesRegisterNonzero(p, q, pattern, k);
    BurstRegister(sent, got, j);
  }

  lemma BurstRegister(sent: seq<byte>, got: seq<byte>, j: nat)
    requires |sent| == |got| && j + 1 < |sent|
    requires forall i :: 0 <= i < |sent| && i != j && i != j + 1 ==> sent[i] == got[i]
    ensures Crc(sent) == Crc(got) <==>
            ShiftByte(Plus(ShiftByte(Plus(Bits(sent[j]), Bits(got[j]))),
                           Plus(Bits(sent[j + 1]), Bits(got[j + 1])))) == 0
  {
    hide Plus, Bits, Val, ShiftByte, Difference;
    var d := Differences(sent, got);
    OnlyTheMiddleMatters(sent, got, j, j + 2);
    var mid := d[j..j + 2];
    assert mid == [d[j], d[j + 1]] && mid[1..] == [d[j + 1]];
    DifferenceBits(sent[j], got[j]);
    DifferenceBits(sent[j + 1], got[j + 1]);
    PlusLaws(Bits(d[j]), 0);
    var w := ShiftByte(Bits(d[j]));
    assert CrcFrom(0, mid) == CrcFrom(w, [d[j + 1]]);
    assert CrcFrom(w, [d[j + 1]]) == ShiftByte(Plus(w, Bits(d[j + 1])));
  }

  function Bit(v: bv8, mask: bv8): nat { if v & mask == mask then 1 else 0 }

  function Ones(v: bv8): nat {
    Bit(v, 0x80) + Bit(v, 0x40) + Bit(v, 0x20) + Bit(v, 0x10)
    + Bit(v, 0x08) + Bit(v, 0x04) + Bit(v, 0x02) + Bit(v, 0x01)
  }

  /** Number of bit positions in which two messages differ. */
  function FlippedBits(a: seq<byte>, b: seq<byte>): nat
    requires |a| == |b|
    decreases |a|
  {
    if a == [] then 0 else Ones(Plus(Bits(a[0]), Bits(b[0]))) + FlippedBits(a[1..], b[1..])
  }

  predicate Odd(v: bv8) {
    var f := v ^ (v >> 4);
    var g := f ^ (f >> 2);
    (g ^ (g >> 1)) & 1 == 1
  }

  lemma OddIsOnes(v: bv8)
    ensures Odd(v) <==> Ones(v) % 2 == 1
  {
  }

  lemma OddPlus(a: bv8, b: bv8, c: bv8)
    requires c == a ^ b
    ensures Odd(c) <==> (Odd(a) != Odd(b))
  {
    if Odd(a) {
      if Odd(b) {} else {}
    } else {
      if Odd(b) {} else {}
    }
  }

  // The polynomial has an even number of terms, so a step never changes the parity.
  lemma ShiftByteKeepsParity(v: bv8)
    ensures Odd(ShiftByte(v)) <==> Odd(v)
  {
  }

  lemma OddStep(crc: bv8, d: bv8)
    ensures Odd(ShiftByte(Plus(crc, d))) <==> (Odd(crc) != (Ones(d) % 2 == 1))
  {
    hide ShiftByte, Odd, Ones;
    ShiftByteKeepsParity(crc ^ d);
    OddPlus(crc, d, crc ^ d);
    OddIsOnes(d);
  }

  lemma {:induction false} CrcParity(crc: bv8, a: seq<byte>, b: seq<byte>)
    requires |a| == |b|
    ensures Odd(CrcFrom(crc, Differences(a, b))) <==> (Odd(crc) != (FlippedBits(a, b) % 2 == 1))
    decreases |a|
  {
    hide Plus, Bits, Val, ShiftByte, Difference, Odd, Ones;
    if a != [] {
      var d := Plus(Bits(a[0]), Bits(b[0]));
      DifferenceBits(a[0], b[0]);
      OddStep(crc, d);
      assert Differences(a, b)[1..] == Differences(a[1..], b[1..]);
      CrcParity(ShiftByte(Plus(crc, d)), a[1..], b[1..]);
    }
  }

  /** Flipping any odd number of bits of a message changes its CRC. */
  lemma DetectsOddFlips(sent: seq<byte>, got: seq<byte>)
    requires |sent| == |got| && FlippedBits(sent, got) % 2 == 1
    ensures Crc(sent) != Crc(got)
  {
    hide Plus, Bits, Val, ShiftByte, Difference, Ones;
    assert !Odd(0);
    CrcParity(0, sent, got);
    SameCrcIffDifferenceZero(sent, got);
  }

  /** A CRC of 0 means that the last byte is the CRC of everything before it. */
  lemma ZeroCrcIffLastByteIsCrc(body: seq<byte>, last: byte)
    ensures Crc(body + [last]) == 0 <==> Crc(body) == last
  {
    hide Plus, Bits, Val, ShiftByte;
    var w := CrcFrom(0, body);
    CrcAppend(0, body, [last]);
    var z := Plus(w, Bits(last));
    assert CrcFrom(w, [last]) == ShiftByte(z);
    ShiftByteZero(z);
    PlusLaws(w, Bits(last));
    BitsVal(w);
    ValBits(last);
    BitsVal(ShiftByte(z));
    ZeroBits();
  }
}
