// What the check byte is, without the register that computes it: the remainder of a division of
// polynomials with coefficients modulo 2.  A polynomial is the set of the exponents it has.
module Crc8Division {
  import opened Words
  import opened Crc8

  type Polynomial = set<nat>

  /** Addition, coefficient by coefficient modulo 2. */
  function Sum(a: Polynomial, b: Polynomial): Polynomial { (a - b) + (b - a) }

  /** Multiplication by a power of x. */
  function TimesPower(a: Polynomial, k: nat): Polynomial { set e | e in a :: e + k }

  /** Multiplication by x^8 + x^2 + x + 1. */
  function TimesGenerator(q: Polynomial): Polynomial {
    Sum(Sum(TimesPower(q, 8), TimesPower(q, 2)), Sum(TimesPower(q, 1), q))
  }

  /** The bit that is the coefficient of x^e. */
  function Mask(e: nat): bv8
    requires e < 8
  {
    match e
    case 0 => 0x01
    case 1 => 0x02
    case 2 => 0x04
    case 3 => 0x08
    case 4 => 0x10
    case 5 => 0x20
    case 6 => 0x40
    case 7 => 0x80
  }

  /** Eight bits as a polynomial, the most significant one the coefficient of x^7. */
  function OfRegister(v: bv8): Polynomial { set e: nat | e < 8 && v & Mask(e) != 0 }

  function OfByte(b: byte): Polynomial { OfRegister(Bits(b)) }

  /** A message as a polynomial, its first bit the highest coefficient. */
  function OfMessage(data: seq<byte>): Polynomial
    decreases |data|
  {
    if data == [] then {} else Sum(TimesPower(OfMessage(data[..|data| - 1]), 8), OfByte(data[|data| - 1]))
  }

  // ---- sums ----

  lemma InSum(a: Polynomial, b: Polynomial, e: nat)
    ensures e in Sum(a, b) <==> (e in a) != (e in b)
  {
  }

  lemma InTimesPower(a: Polynomial, k: nat, e: nat)
    ensures e in TimesPower(a, k) <==> e >= k && e - k in a
  {
    if e >= k && e - k in a {
      assert e == (e - k) + k;
    }
  }

  lemma SumRegroup(a: Polynomial, b: Polynomial, c: Polynomial, d: Polynomial)
    ensures Sum(Sum(a, b), Sum(c, d)) == Sum(Sum(a, c), Sum(b, d))
    ensures Sum(Sum(a, b), c) == Sum(a, Sum(b, c))
    ensures Sum({}, a) == a && Sum(a, {}) == a
  {
    forall e: nat
      ensures e in Sum(Sum(a, b), Sum(c, d)) <==> e in Sum(Sum(a, c), Sum(b, d))
      ensures e in Sum(Sum(a, b), c) <==> e in Sum(a, Sum(b, c))
    {
    }
  }

  lemma TimesPowerSum(a: Polynomial, b: Polynomial, k: nat)
    ensures TimesPower(Sum(a, b), k) == Sum(TimesPower(a, k), TimesPower(b, k))
  {
    forall e: nat
      ensures e in TimesPower(Sum(a, b), k) <==> e in Sum(TimesPower(a, k), TimesPower(b, k))
    {
      InTimesPower(Sum(a, b), k, e);
      InTimesPower(a, k, e);
      InTimesPower(b, k, e);
    }
  }

  lemma TimesPowerTwice(a: Polynomial, j: nat, k: nat)
    ensures TimesPower(TimesPower(a, j), k) == TimesPower(a, j + k) == TimesPower(TimesPower(a, k), j)
    ensures TimesPower(a, 0) == a
  {
    forall e: nat
      ensures e in TimesPower(TimesPower(a, j), k) <==> e in TimesPower(a, j + k)
      ensures e in TimesPower(TimesPower(a, k), j) <==> e in TimesPower(a, j + k)
      ensures e in TimesPower(a, 0) <==> e in a
    {
      InTimesPower(TimesPower(a, j), k, e);
      InTimesPower(TimesPower(a, k), j, e);
      InTimesPower(a, j + k, e);
      InTimesPower(a, 0, e);
      if e >= k {
        InTimesPower(a, j, e - k);
      }
      if e >= j {
        InTimesPower(a, k, e - j);
      }
    }
  }

  lemma GeneratorSum(a: Polynomial, b: Polynomial)
    ensures TimesGenerator(Sum(a, b)) == Sum(TimesGenerator(a), TimesGenerator(b))
  {
    hide Sum, TimesPower;
    TimesPowerSum(a, b, 8);
    TimesPowerSum(a, b, 2);
    TimesPowerSum(a, b, 1);
    SumRegroup(TimesPower(a, 8), TimesPower(b, 8), TimesPower(a, 2), TimesPower(b, 2));
    SumRegroup(TimesPower(a, 1), TimesPower(b, 1), a, b);
    SumRegroup(Sum(TimesPower(a, 8), TimesPower(a, 2)), Sum(TimesPower(b, 8), TimesPower(b, 2)),
               Sum(TimesPower(a, 1), a), Sum(TimesPower(b, 1), b));
  }

  lemma GeneratorTimesPower(q: Polynomial, k: nat)
    ensures TimesPower(TimesGenerator(q), k) == TimesGenerator(TimesPower(q, k))
  {
    hide Sum, TimesPower;
    TimesPowerSum(Sum(TimesPower(q, 8), TimesPower(q, 2)), Sum(TimesPower(q, 1), q), k);
    TimesPowerSum(TimesPower(q, 8), TimesPower(q, 2), k);
    TimesPowerSum(TimesPower(q, 1), q, k);
    TimesPowerTwice(q, 8, k);
    TimesPowerTwice(q, 2, k);
    TimesPowerTwice(q, 1, k);
  }

  // ---- registers ----

  lemma InRegister(v: bv8, e: nat)
    ensures e in OfRegister(v) <==> e < 8 && v & Mask(e) != 0
  {
  }

  lemma ShiftBits(v: bv8)
    ensures Shift(v) & 0x01 != 0 <==> v & 0x80 != 0
    ensures Shift(v) & 0x02 != 0 <==> (v & 0x01 != 0) != (v & 0x80 != 0)
    ensures Shift(v) & 0x04 != 0 <==> (v & 0x02 != 0) != (v & 0x80 != 0)
    ensures Shift(v) & 0x08 != 0 <==> v & 0x04 != 0
    ensures Shift(v) & 0x10 != 0 <==> v & 0x08 != 0
    ensures Shift(v) & 0x20 != 0 <==> v & 0x10 != 0
    ensures Shift(v) & 0x40 != 0 <==> v & 0x20 != 0
    ensures Shift(v) & 0x80 != 0 <==> v & 0x40 != 0
  {
  }

  // One step of the register is multiplication by x, less the generator on carry.
  lemma ShiftDivides(v: bv8)
    ensures TimesPower(OfRegister(v), 1) ==
              Sum(TimesGenerator(if v & 0x80 != 0 then {0} else {}), OfRegister(Shift(v)))
  {
    hide Shift, OfRegister, TimesPower, TimesGenerator, Sum;
    ShiftBits(v);
    GeneratorOfBit(v & 0x80 != 0);
    var carry: Polynomial := if v & 0x80 != 0 then {0} else {};
    forall e: nat
      ensures e in TimesPower(OfRegister(v), 1) <==> e in Sum(TimesGenerator(carry), OfRegister(Shift(v)))
    {
      InTimesPower(OfRegister(v), 1, e);
      InSum(TimesGenerator(carry), OfRegister(Shift(v)), e);
      InRegister(Shift(v), e);
      if e >= 1 {
        InRegister(v, e - 1);
      }
    }
  }

  lemma GeneratorOfBit(carry: bool)
    ensures TimesGenerator(if carry then {0} else {}) == if carry then {8, 2, 1, 0} else {}
  {
    assert TimesPower({}, 8) == TimesPower({}, 2) == TimesPower({}, 1) == {};
    assert TimesPower({0}, 8) == {8} && TimesPower({0}, 2) == {2} && TimesPower({0}, 1) == {1};
  }

  // Eight steps are multiplication by x^8, less a multiple of the generator.
  lemma {:induction false} StepsDivide(v: bv8, k: nat) returns (q: Polynomial)
    ensures TimesPower(OfRegister(v), k) == Sum(TimesGenerator(q), OfRegister(ShiftTimes(v, k)))
  {
    hide Shift, OfRegister, TimesPower, TimesGenerator, Sum;
    if k == 0 {
      q := {};
      TimesPowerTwice(OfRegister(v), 0, 0);
      GeneratorOfBit(false);
      SumRegroup(OfRegister(v), {}, {}, {});
    } else {
      var p := StepsDivide(v, k - 1);
      var w := ShiftTimes(v, k - 1);
      TimesPowerTwice(OfRegister(v), k - 1, 1);
      TimesPowerSum(TimesGenerator(p), OfRegister(w), 1);
      GeneratorTimesPower(p, 1);
      ShiftDivides(w);
      var carry: Polynomial := if w & 0x80 != 0 then {0} else {};
      q := Sum(TimesPower(p, 1), carry);
      GeneratorSum(TimesPower(p, 1), carry);
      SumRegroup(TimesGenerator(TimesPower(p, 1)), TimesGenerator(carry), OfRegister(Shift(w)), {});
    }
  }

  lemma PlusIsSum(a: bv8, b: bv8)
    ensures OfRegister(Plus(a, b)) == Sum(OfRegister(a), OfRegister(b))
  {
    hide OfRegister, Sum, Plus;
    forall e: nat
      ensures e in OfRegister(Plus(a, b)) <==> e in Sum(OfRegister(a), OfRegister(b))
    {
      if e < 8 {
        OneBit(a, b, Mask(e));
      }
      InSum(OfRegister(a), OfRegister(b), e);
      InRegister(a, e);
      InRegister(b, e);
      InRegister(Plus(a, b), e);
    }
  }

  lemma OneBit(a: bv8, b: bv8, m: bv8)
    requires m == 0x01 || m == 0x02 || m == 0x04 || m == 0x08 || m == 0x10 || m == 0x20 || m == 0x40 || m == 0x80
    ensures Plus(a, b) & m != 0 <==> (a & m != 0) != (b & m != 0)
  {
  }

  // ---- the check byte ----

  // The register after some data, times x^8, is what the data leave.
  lemma {:induction false} RegisterDivides(data: seq<byte>) returns (q: Polynomial)
    ensures TimesPower(OfMessage(data), 8) == Sum(TimesGenerator(q), OfRegister(CrcFrom(0, data)))
    decreases |data|
  {
    hide OfRegister, TimesPower, TimesGenerator, Sum, ShiftByte, Plus;
    if data == [] {
      q := {};
      GeneratorOfBit(false);
      NothingLeft();
      SumRegroup({}, {}, {}, {});
    } else {
      var before, b := data[..|data| - 1], data[|data| - 1];
      var p := RegisterDivides(before);
      var r := CrcFrom(0, before);
      var z := Plus(r, Bits(b));
      assert data == before + [b];
      CrcAppend(0, before, [b]);
      OneByte(r, b);
      PlusIsSum(r, Bits(b));
      var t := StepsDivide(z, 8);
      EightShifts(z);
      var m := TimesPower(OfMessage(before), 8);
      TimesPowerSum(m, OfByte(b), 8);
      TimesPowerSum(TimesGenerator(p), OfRegister(r), 8);
      GeneratorTimesPower(p, 8);
      TimesPowerSum(OfRegister(r), OfByte(b), 8);
      var u := TimesPower(p, 8);
      q := Sum(u, t);
      GeneratorSum(u, t);
      SumRegroup(TimesGenerator(u), TimesPower(OfRegister(r), 8), TimesPower(OfByte(b), 8), {});
      SumRegroup(TimesGenerator(u), TimesGenerator(t), OfRegister(ShiftByte(z)), {});
    }
  }

  lemma NothingLeft()
    ensures OfRegister(0) == {} && TimesPower({}, 8) == {}
  {
  }

  lemma OneByte(r: bv8, b: byte)
    ensures CrcFrom(r, [b]) == ShiftByte(Plus(r, Bits(b))) && OfByte(b) == OfRegister(Bits(b))
  {
    hide ShiftByte, Plus, OfRegister;
    var after := ShiftByte(Plus(r, Bits(b)));
    assert [b][1..] == [] && CrcFrom(after, []) == after;
  }

  /** The check byte is what is left of the message times x^8 after division by the generator. */
  lemma CrcIsRemainder(data: seq<byte>) returns (q: Polynomial)
    ensures TimesPower(OfMessage(data), 8) == Sum(TimesGenerator(q), OfByte(Crc(data)))
  {
    hide OfRegister, TimesPower, TimesGenerator, Sum, CrcFrom;
    q := RegisterDivides(data);
    BitsVal(CrcFrom(0, data));
  }

  /** And nothing else is: a remainder with exponents below 8 is unique. */
  lemma RemainderIsUnique(q: Polynomial, r: Polynomial, q2: Polynomial, r2: Polynomial)
    requires Sum(TimesGenerator(q), r) == Sum(TimesGenerator(q2), r2)
    requires (forall e :: e in r ==> e < 8) && (forall e :: e in r2 ==> e < 8)
    ensures r == r2
  {
    hide TimesPower, TimesGenerator;
    var d := Sum(q, q2);
    GeneratorSum(q, q2);
    assert TimesGenerator(d) == Sum(r, r2) by {
      forall e: nat
        ensures e in TimesGenerator(d) <==> e in Sum(r, r2)
      {
        InSum(TimesGenerator(q), r, e);
        InSum(TimesGenerator(q2), r2, e);
      }
    }
    if d != {} {
      var m := Highest(d);
      MultipleIsLong(d, m);
      assert false;
    }
    GeneratorOfBit(false);
    forall e: nat
      ensures e in r <==> e in r2
    {
      InSum(r, r2, e);
    }
  }

  lemma {:induction false} Highest(d: Polynomial) returns (m: nat)
    requires d != {}
    ensures m in d && forall e :: e in d ==> e <= m
    decreases |d|
  {
    var x :| x in d;
    var rest := d - {x};
    m := x;
    if rest != {} {
      var n := Highest(rest);
      m := if n > x then n else x;
    }
    forall e | e in d
      ensures e <= m
    {
      assert e == x || e in rest;
    }
  }

  lemma MultipleIsLong(d: Polynomial, m: nat)
    requires m in d && forall e :: e in d ==> e <= m
    ensures m + 8 in TimesGenerator(d)
  {
    hide TimesPower, Sum;
    InTimesPower(d, 8, m + 8);
    InTimesPower(d, 2, m + 8);
    InTimesPower(d, 1, m + 8);
    InSum(TimesPower(d, 8), TimesPower(d, 2), m + 8);
    InSum(TimesPower(d, 1), d, m + 8);
    InSum(Sum(TimesPower(d, 8), TimesPower(d, 2)), Sum(TimesPower(d, 1), d), m + 8);
  }

  /** So a byte is the check byte exactly if some multiple of the generator leaves it. */
  lemma CrcIff(data: seq<byte>, b: byte)
    ensures Crc(data) == b <==>
              exists q {:trigger TimesGenerator(q)} ::
                TimesPower(OfMessage(data), 8) == Sum(TimesGenerator(q), OfByte(b))
  {
    hide TimesPower, TimesGenerator, Sum, Crc;
    var q := CrcIsRemainder(data);
    if p: Polynomial {:trigger TimesGenerator(p)} :|
      TimesPower(OfMessage(data), 8) == Sum(TimesGenerator(p), OfByte(b))
    {
      RemainderIsUnique(q, OfByte(Crc(data)), p, OfByte(b));
      SameByte(Crc(data), b);
    }
  }

  lemma SameByte(a: byte, b: byte)
    requires OfByte(a) == OfByte(b)
    ensures a == b
  {
    hide OfRegister, Bits, Val;
    SameRegister(Bits(a), Bits(b));
    ValBits(a);
    ValBits(b);
  }

  lemma SameRegister(v: bv8, w: bv8)
    requires OfRegister(v) == OfRegister(w)
    ensures v == w
  {
    hide OfRegister;
    InRegister(v, 0);
    InRegister(w, 0);
    InRegister(v, 1);
    InRegister(w, 1);
    InRegister(v, 2);
    InRegister(w, 2);
    InRegister(v, 3);
    InRegister(w, 3);
    InRegister(v, 4);
    InRegister(w, 4);
    InRegister(v, 5);
    InRegister(w, 5);
    InRegister(v, 6);
    InRegister(w, 6);
    InRegister(v, 7);
    InRegister(w, 7);
    SameBits(v, w);
  }

  lemma SameBits(v: bv8, w: bv8)
    requires v & 0x01 != 0 <==> w & 0x01 != 0
    requires v & 0x02 != 0 <==> w & 0x02 != 0
    requires v & 0x04 != 0 <==> w & 0x04 != 0
    requires v & 0x08 != 0 <==> w & 0x08 != 0
    requires v & 0x10 != 0 <==> w & 0x10 != 0
    requires v & 0x20 != 0 <==> w & 0x20 != 0
    requires v & 0x40 != 0 <==> w & 0x40 != 0
    requires v & 0x80 != 0 <==> w & 0x80 != 0
    ensures v == w
  {
  }

  // ---- check values ----

  /** Zero bytes in front do not change the check byte, and of nothing it is 0. */
  lemma LeadingZeros(zeros: seq<byte>, data: seq<byte>)
    requires Zeros(zeros)
    ensures Crc(zeros + data) == Crc(data) && Crc(zeros) == 0 && Crc([]) == 0
  {
    hide CrcFrom, Val;
    CrcAppend(0, zeros, data);
    CrcOfZeros(0, zeros);
    CrcOfZeros(0, []);
    ZeroBits();
  }

  lemma NoMoreBytes()
    ensures Crc([]) == 0
  {
  }

  lemma OneMoreByte(data: seq<byte>, b: byte, after: seq<byte>, crc: byte, next: byte)
    requires after == data + [b] && Crc(data) == crc && ShiftSum(Bits(crc) ^ Bits(b)) == Bits(next)
    ensures Crc(after) == next
  {
    hide ShiftSum, ShiftByte, Bits, Val, CrcFrom;
    BitsVal(CrcFrom(0, data));
    CrcAppend(0, data, [b]);
    OneByte(CrcFrom(0, data), b);
    ShiftByteIsShiftSum(Bits(crc) ^ Bits(b));
    ValBits(next);
  }

  /** The check value of the standard, of the digits from 1 to 9 in ASCII. */
  lemma CheckValue()
    ensures Crc([0x31, 0x32, 0x33, 0x34, 0x35, 0x36, 0x37, 0x38, 0x39]) == 0xF4
  {
    hide CrcFrom, Crc, Val;
    NoMoreBytes();
    OneMoreByte([], 0x31, [0x31], 0x00, 0x97);
    OneMoreByte([0x31], 0x32, [0x31, 0x32], 0x97, 0x72);
    OneMoreByte([0x31, 0x32], 0x33, [0x31, 0x32, 0x33], 0x72, 0xC0);
    OneMoreByte([0x31, 0x32, 0x33], 0x34, [0x31, 0x32, 0x33, 0x34], 0xC0, 0xC2);
    OneMoreByte([0x31, 0x32, 0x33, 0x34], 0x35, [0x31, 0x32, 0x33, 0x34, 0x35], 0xC2, 0xCB);
    OneMoreByte([0x31, 0x32, 0x33, 0x34, 0x35], 0x36, [0x31, 0x32, 0x33, 0x34, 0x35, 0x36], 0xCB, 0xFD);
    OneMoreByte([0x31, 0x32, 0x33, 0x34, 0x35, 0x36], 0x37, [0x31, 0x32, 0x33, 0x34, 0x35, 0x36, 0x37], 0xFD, 0x78);
    OneMoreByte([0x31, 0x32, 0x33, 0x34, 0x35, 0x36, 0x37], 0x38,
                [0x31, 0x32, 0x33, 0x34, 0x35, 0x36, 0x37, 0x38], 0x78, 0xC7);
    OneMoreByte([0x31, 0x32, 0x33, 0x34, 0x35, 0x36, 0x37, 0x38], 0x39,
                [0x31, 0x32, 0x33, 0x34, 0x35, 0x36, 0x37, 0x38, 0x39], 0xC7, 0xF4);
  }

  // Those of the three commands without data.
  lemma UnknownCheck()
    ensures Crc([0x11, 0x01, 0x00, 0x00]) == 0x1A
  {
    hide CrcFrom, Crc, Val;
    NoMoreBytes();
    OneMoreByte([], 0x11, [0x11], 0x00, 0x77);
    OneMoreByte([0x11], 0x01, [0x11, 0x01], 0x77, 0x45);
    OneMoreByte([0x11, 0x01], 0x00, [0x11, 0x01, 0x00], 0x45, 0xDC);
    OneMoreByte([0x11, 0x01, 0x00], 0x00, [0x11, 0x01, 0x00, 0x00], 0xDC, 0x1A);
  }

  lemma NoFaceCheck()
    ensures Crc([0x12, 0x01, 0x00, 0x00]) == 0x20
  {
    hide CrcFrom, Crc, Val;
    NoMoreBytes();
    OneMoreByte([], 0x12, [0x12], 0x00, 0x7E);
    OneMoreByte([0x12], 0x01, [0x12, 0x01], 0x7E, 0x7A);
    OneMoreByte([0x12, 0x01], 0x00, [0x12, 0x01, 0x00], 0x7A, 0x61);
    OneMoreByte([0x12, 0x01, 0x00], 0x00, [0x12, 0x01, 0x00, 0x00], 0x61, 0x20);
  }

  lemma ManyFacesCheck()
    ensures Crc([0x13, 0x01, 0x00, 0x00]) == 0x36
  {
    hide CrcFrom, Crc, Val;
    NoMoreBytes();
    OneMoreByte([], 0x13, [0x13], 0x00, 0x79);
    OneMoreByte([0x13], 0x01, [0x13, 0x01], 0x79, 0x6F);
    OneMoreByte([0x13, 0x01], 0x00, [0x13, 0x01, 0x00], 0x6F, 0x0A);
    OneMoreByte([0x13, 0x01, 0x00], 0x00, [0x13, 0x01, 0x00, 0x00], 0x0A, 0x36);
  }
}
