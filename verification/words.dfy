// Machine words of the firmware: bytes, 32-bit unsigned arithmetic that wraps, and the
// slots of a circular buffer.
module Words {
  type byte = x: int | 0 <= x < 0x100

  const TWO32 := 0x1_0000_0000

  type u32 = x: int | 0 <= x < TWO32

  function Wrap32(x: int): u32 { x % TWO32 }

  function Add32(a: u32, b: u32): u32 { Wrap32(a + b) }

  function Sub32(a: u32, b: u32): u32 { Wrap32(a - b) }

  function Min(a: int, b: int): int { if a < b then a else b }

  function Max(a: int, b: int): int { if a < b then b else a }

  // ---- remainders ----

  lemma DivModUnique(x: int, c: int, q: int, r: int)
    requires c > 0 && x == q * c + r && 0 <= r < c
    ensures x / c == q && x % c == r
  {
    var p, s := x / c, x % c;
    assert x == p * c + s && 0 <= s < c;
    Difference(p, q, c);
    if p < q {
      AtLeastOnce(q - p, c);
    } else if q < p {
      AtLeastOnce(p - q, c);
    }
  }

  lemma Difference(p: int, q: int, c: int)
    ensures (q - p) * c == q * c - p * c
    ensures (p - q) * c == p * c - q * c
  {
  }

  lemma AtLeastOnce(n: int, c: int)
    requires n >= 1 && c >= 0
    ensures n * c >= c
  {
  }

  /** What rb_init demands of a capacity: a power of two, that is, a divisor of 2^32. */
  ghost predicate Capacity(c: int) { 0 < c < TWO32 && TWO32 % c == 0 }

  /** Masking an index that has wrapped at 2^32 is masking the index that has not. */
  lemma WrapThenSlot(x: int, c: int)
    requires Capacity(c)
    ensures Wrap32(x) % c == x % c
  {
    var k := TWO32 / c;
    assert TWO32 == k * c;
    var q, r := x / TWO32, x % TWO32;
    var q2, r2 := r / c, r % c;
    assert x == q * TWO32 + r;
    assert q * TWO32 == (q * k) * c;
    assert (q * k) * c + q2 * c == (q * k + q2) * c;
    DivModUnique(x, c, q * k + q2, r2);
  }

  /** Two indices at most 2^32 - 1 apart subtract exactly. */
  lemma Sub32Exact(a: int, b: int)
    requires 0 <= a - b < TWO32
    ensures Sub32(Wrap32(a), Wrap32(b)) == a - b
  {
  }

  lemma EqualIndices(a: int, b: int)
    requires 0 <= a - b < TWO32
    ensures Wrap32(a) == Wrap32(b) <==> a == b
  {
    Sub32Exact(a, b);
  }

  lemma WrapSmall(x: int)
    requires 0 <= x < TWO32
    ensures Wrap32(x) == x
  {
  }

  lemma Add32Exact(a: int, n: int)
    requires 0 <= n < TWO32
    ensures Add32(Wrap32(a), n) == Wrap32(a + n)
  {
  }

  // ---- slots of a circular buffer of capacity c ----

  /** How far slot s lies behind slot i, going round. */
  function Ahead(s: int, i: int, c: int): int { if s >= i then s - i else s + c - i }

  /** Positions less than one lap away from pos occupy the slots their distance says. */
  lemma SlotOf(pos: int, k: int, c: int)
    requires c > 0 && pos - c <= k < pos + c
    ensures 0 <= k % c < c && 0 <= pos % c < c
    ensures Ahead(k % c, pos % c, c) == if k >= pos then k - pos else k - pos + c
  {
    var i, q := pos % c, pos / c;
    assert pos == q * c + i;
    var d := k - pos;
    if d >= 0 {
      if i + d < c {
        DivModUnique(k, c, q, i + d);
      } else {
        assert (q + 1) * c == q * c + c;
        DivModUnique(k, c, q + 1, i + d - c);
      }
    } else {
      if i + d >= 0 {
        DivModUnique(k, c, q, i + d);
      } else {
        assert (q - 1) * c == q * c - c;
        DivModUnique(k, c, q - 1, i + d + c);
      }
    }
  }

  /** The slot n places after pos, as the two-segment copies compute it. */
  function SlotAfter(i: int, n: int, c: int): int { if i + n < c then i + n else i + n - c }

  lemma SlotAfterIs(pos: int, n: int, c: int)
    requires c > 0 && 0 <= n < c
    ensures 0 <= pos % c < c
    ensures SlotAfter(pos % c, n, c) == (pos + n) % c
  {
    SlotOf(pos, pos + n, c);
  }

  lemma SlotsDiffer(a: int, b: int, c: int)
    requires c > 0 && a < b < a + c
    ensures a % c != b % c
  {
    SlotOf(a, b, c);
  }

  /** The count bytes from position start on, read round a circular buffer. */
  function Unroll(cells: seq<byte>, start: nat, count: nat): (s: seq<byte>)
    requires |cells| > 0
    ensures |s| == count
  {
    seq(count, i requires 0 <= i < count => cells[(start + i) % |cells|])
  }

  lemma UnrollSplit(cells: seq<byte>, start: nat, count: nat, n: nat)
    requires |cells| > 0 && n <= count
    ensures Unroll(cells, start, count)[..n] == Unroll(cells, start, n)
    ensures Unroll(cells, start, count)[n..] == Unroll(cells, start + n, count - n)
    ensures Unroll(cells, start, count) == Unroll(cells, start, n) + Unroll(cells, start + n, count - n)
  {
    forall i | 0 <= i < count - n
      ensures Unroll(cells, start, count)[n..][i] == Unroll(cells, start + n, count - n)[i]
    {
      assert start + (n + i) == (start + n) + i;
    }
  }

  lemma FirstOfUnroll(cells: seq<byte>, start: nat, count: nat)
    requires |cells| > 0
    ensures count > 0 ==> Unroll(cells, start, count)[0] == cells[start % |cells|]
  {
  }

  /** The two segments of the copy loops are the unrolled bytes. */
  lemma UnrollSegments(cells: seq<byte>, start: nat, n: nat)
    requires |cells| > 0 && n <= |cells|
    ensures 0 <= start % |cells| < |cells|
    ensures Unroll(cells, start, n) ==
              var i := start % |cells|;
              if i + n <= |cells| then cells[i..i + n] else cells[i..] + cells[..i + n - |cells|]
  {
    var c := |cells|;
    var i := start % c;
    var u := if i + n <= c then cells[i..i + n] else cells[i..] + cells[..i + n - c];
    forall k | 0 <= k < n
      ensures Unroll(cells, start, n)[k] == u[k]
    {
      SlotAfterIs(start, k, c);
    }
  }

  /** after is before with data written round from slot i on. */
  ghost predicate WrittenFrom(before: seq<byte>, after: seq<byte>, i: nat, data: seq<byte>) {
    && |after| == |before| && i < |before|
    && forall s :: 0 <= s < |before| ==>
         after[s] == if Ahead(s, i, |before|) < |data| then data[Ahead(s, i, |before|)] else before[s]
  }

  /** Writing behind the unread bytes appends to them and disturbs none of them. */
  lemma UnrollWrite(before: seq<byte>, after: seq<byte>, start: nat, count: nat, data: seq<byte>)
    requires |before| > 0 && count + |data| <= |before|
    requires 0 <= (start + count) % |before|
    requires WrittenFrom(before, after, (start + count) % |before|, data)
    ensures Unroll(after, start, count + |data|) == Unroll(before, start, count) + data
  {
    forall k | 0 <= k < count + |data|
      ensures Unroll(after, start, count + |data|)[k] == (Unroll(before, start, count) + data)[k]
    {
      SlotOf(start + count, start + k, |before|);
    }
  }

  // ---- why the remainder stands for the mask ----

  function Pow2(k: nat): nat { if k == 0 then 1 else 2 * Pow2(k - 1) }

  /** The bitwise AND of two unsigned words, bit by bit. */
  function BitAnd(x: nat, y: nat): nat {
    if x == 0 || y == 0 then 0
    else (if x % 2 == 1 && y % 2 == 1 then 1 else 0) + 2 * BitAnd(x / 2, y / 2)
  }

  /** Masking with capacity - 1 is taking the remainder. */
  lemma {:induction false} MaskIsRemainder(x: nat, k: nat)
    ensures Pow2(k) >= 1
    ensures BitAnd(x, Pow2(k) - 1) == x % Pow2(k)
  {
    if k > 0 {
      var p := Pow2(k - 1);
      MaskIsRemainder(x / 2, k - 1);
      DoubleRemainder(x, p);
      MaskBitByBit(x, p);
    }
  }

  lemma MaskBitByBit(x: nat, p: nat)
    requires p >= 1
    ensures BitAnd(x, 2 * p - 1) == x % 2 + 2 * BitAnd(x / 2, p - 1)
  {
    assert (2 * p - 1) / 2 == p - 1 && (2 * p - 1) % 2 == 1;
  }

  lemma DoubleRemainder(x: nat, p: nat)
    requires p >= 1
    ensures x % (2 * p) == 2 * (x / 2 % p) + x % 2
  {
    var h := x / 2;
    var q, r := h / p, h % p;
    assert h == q * p + r;
    assert q * (2 * p) == 2 * (q * p);
    DivModUnique(x, 2 * p, q, 2 * r + x % 2);
  }

  /** is_power_of_two, the test rb_init makes, accepts exactly the capacities of this model. */
  lemma PowerOfTwoTest(c: nat)
    requires 0 < c < TWO32
    ensures BitAnd(c, c - 1) == 0 <==> Capacity(c)
  {
    assert Pow2(8) == 256;
    assert Pow2(16) == 65536;
    assert Pow2(24) == 0x100_0000;
    assert Pow2(32) == TWO32;
    if BitAnd(c, c - 1) == 0 {
      var k := TestGivesPower(c, 32);
      PowerDivides(k, 32);
    }
    if Capacity(c) {
      var k := DivisorIsPower(c, 32);
      PowerPassesTest(k);
    }
  }

  lemma {:induction false} TestGivesPower(c: nat, n: nat) returns (k: nat)
    requires 0 < c < Pow2(n) && BitAnd(c, c - 1) == 0
    ensures k < n && c == Pow2(k)
  {
    if c == 1 {
      k := 0;
    } else if c % 2 == 1 {
      assert (c - 1) / 2 == c / 2;
      BitAndSelf(c / 2);
      assert false;
    } else {
      assert (c - 1) / 2 == c / 2 - 1;
      var j := TestGivesPower(c / 2, n - 1);
      k := j + 1;
    }
  }

  lemma {:induction false} BitAndSelf(x: nat)
    ensures BitAnd(x, x) == x
  {
    if x > 0 {
      BitAndSelf(x / 2);
    }
  }

  lemma {:induction false} PowerDivides(k: nat, n: nat)
    requires k <= n
    ensures Pow2(k) >= 1 && Pow2(n) % Pow2(k) == 0
  {
    if k < n {
      PowerDivides(k, n - 1);
      var q := Pow2(n - 1) / Pow2(k);
      assert Pow2(n - 1) == q * Pow2(k);
      assert Pow2(n) == (2 * q) * Pow2(k);
      DivModUnique(Pow2(n), Pow2(k), 2 * q, 0);
    } else if k > 0 {
      PowerDivides(k - 1, k - 1);
      DivModUnique(Pow2(n), Pow2(k), 1, 0);
    }
  }

  lemma {:induction false} DivisorIsPower(c: nat, n: nat) returns (k: nat)
    requires c > 0 && Pow2(n) % c == 0
    ensures c == Pow2(k)
    decreases n, c
  {
    if c == 1 {
      k := 0;
    } else if n == 0 {
      assert false;
    } else {
      var q := Pow2(n) / c;
      assert Pow2(n) == q * c;
      if c % 2 == 0 {
        var h := c / 2;
        assert Pow2(n - 1) == q * h;
        DivModUnique(Pow2(n - 1), h, q, 0);
        var j := DivisorIsPower(h, n - 1);
        k := j + 1;
      } else {
        OddFactor(q, c, Pow2(n - 1));
        DivModUnique(Pow2(n - 1), c, q / 2, 0);
        k := DivisorIsPower(c, n - 1);
      }
    }
  }

  lemma OddFactor(q: nat, c: nat, m: nat)
    requires q * c == 2 * m && c % 2 == 1
    ensures q / 2 * c == m
  {
    var d, h := c / 2, q / 2;
    assert c == 2 * d + 1;
    assert q * c == q * (2 * d) + q;
    assert q * (2 * d) == 2 * (q * d);
    assert q == 2 * (m - q * d);
    assert q == 2 * h;
    assert q * c == 2 * (h * c);
  }

  lemma PowerPassesTest(k: nat)
    ensures Pow2(k) >= 1 && BitAnd(Pow2(k), Pow2(k) - 1) == 0
  {
    MaskIsRemainder(Pow2(k), k);
    DivModUnique(Pow2(k), Pow2(k), 1, 0);
  }
}
