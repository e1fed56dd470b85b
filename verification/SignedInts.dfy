/**
 * Signed integers of one to six bytes in a buffer: writing by truncating division with a borrow, reading by summing
 * bytes and subtracting a power of two.
 */
module SignedInts {
  import opened JsStrings
  import opened Arithmetic

  function Pow256(n: nat): (p: int)
    ensures p >= 1
  {
    if n == 0 then 1 else 0x100 * Pow256(n - 1)
  }

  // ---------------------------------------------------------------- specification

  /** Byte `i` of the two's complement form: floor division, then the low eight bits. */
  function ByteAt(value: int, i: nat): Byte {
    value / Pow256(i) % 0x100
  }

  function LittleBytes(value: int, n: nat): (b: Bytes)
    ensures |b| == n
  {
    seq(n, i requires 0 <= i < n => ByteAt(value, i))
  }

  function BigBytes(value: int, n: nat): (b: Bytes)
    ensures |b| == n
  {
    seq(n, i requires 0 <= i < n => ByteAt(value, n - 1 - i))
  }

  function Little(b: Bytes): int {
    if b == [] then 0 else Little(b[..|b| - 1]) + b[|b| - 1] * Pow256(|b| - 1)
  }

  function Big(b: Bytes): int {
    if b == [] then 0 else b[0] * Pow256(|b| - 1) + Big(b[1..])
  }

  function Signed(unsigned: int, n: nat): int
    requires n >= 1
  {
    if unsigned >= Pow256(n - 1) * 0x80 then unsigned - Pow256(n) else unsigned
  }

  predicate InRange(value: int, n: nat)
    requires n >= 1
  {
    -(Pow256(n - 1) * 0x80) <= value < Pow256(n - 1) * 0x80
  }

  // ---------------------------------------------------------------- JavaScript arithmetic

  /** `>> 0`: the value modulo 2^32, as a signed 32-bit integer. */
  function ToInt32(x: int): int {
    (x + 0x8000_0000) % 0x1_0000_0000 - 0x8000_0000
  }

  function And255(x: int): Byte {
    ToInt32(x) % 0x100
  }

  /** Division of numbers, its fraction dropped. */
  function Truncated(x: int, y: int): int
    requires y > 0
  {
    if x >= 0 then x / y else -((-x) / y)
  }

  lemma SameLowByte(x: int, y: int, k: int)
    requires y == x + k * 0x100
    ensures y % 0x100 == x % 0x100
  {
    DivIsQuotient(x, 0x100);
    DivModUnique(y, 0x100, x / 0x100 + k, x % 0x100);
  }

  lemma WrapIsMultiple(x: int) returns (k: int)
    ensures ToInt32(x) == x + k * 0x100
  {
    k := -((x + 0x8000_0000) / 0x1_0000_0000) * 0x100_0000;
  }

  /** Wrapping to 32 bits, before or after the borrow, leaves the low byte alone. */
  lemma And255IsLowByte(x: int, sub: int)
    ensures And255(ToInt32(x) - sub) == (x - sub) % 0x100
    ensures And255(x) == x % 0x100
  {
    hide ToInt32;
    var k := WrapIsMultiple(x);
    SameLowByte(x, ToInt32(x), k);
    SameLowByte(x - sub, ToInt32(x) - sub, k);
    var k' := WrapIsMultiple(ToInt32(x) - sub);
    SameLowByte(ToInt32(x) - sub, ToInt32(ToInt32(x) - sub), k');
  }

  /** Floor division is truncating division minus the borrow. */
  lemma BorrowMakesFloor(x: int, y: int)
    requires y > 0
    ensures x / y == Truncated(x, y) - (if x < 0 && x % y != 0 then 1 else 0)
  {
    DivIsQuotient(x, y);
    if x < 0 {
      var q, r := x / y, x % y;
      if r == 0 {
        DivModUnique(-x, y, -q, 0);
      } else {
        assert -x == (-q - 1) * y + (y - r);
        DivModUnique(-x, y, -q - 1, y - r);
      }
    }
  }

  lemma Regroup(high: int, low: int, m: int)
    ensures (high * 0x100 + low) * m == high * (0x100 * m) + low * m
  {
  }

  /** One more byte of the quotient and of the remainder. */
  lemma NextByte(value: int, i: nat)
    ensures value / Pow256(i + 1) == value / Pow256(i) / 0x100
    ensures value % Pow256(i + 1) == ByteAt(value, i) * Pow256(i) + value % Pow256(i)
    ensures value % Pow256(i + 1) == 0 <==> ByteAt(value, i) == 0 && value % Pow256(i) == 0
  {
    var m := Pow256(i);
    var q, r := value / m, value % m;
    DivIsQuotient(value, m);
    var high, low: int := q / 0x100, q % 0x100;
    assert q == high * 0x100 + low;
    MulMono(0, low, m);
    MulMono(low, 0xFF, m);
    calc {
      value;
      (high * 0x100 + low) * m + r;
      { Regroup(high, low, m); }
      high * (0x100 * m) + (low * m + r);
    }
    DivModUnique(value, 0x100 * m, high, low * m + r);
    if low > 0 {
      MulMono(1, low, m);
    }
  }

  // ---------------------------------------------------------------- round trips

  lemma {:induction false} LittleOfBytes(value: int, n: nat)
    ensures Little(LittleBytes(value, n)) == value % Pow256(n)
  {
    if n > 0 {
      LittleOfBytes(value, n - 1);
      NextByte(value, n - 1);
      assert LittleBytes(value, n)[..n - 1] == LittleBytes(value, n - 1);
    }
  }

  lemma {:induction false} BigOfBytes(value: int, n: nat)
    ensures Big(BigBytes(value, n)) == value % Pow256(n)
  {
    if n > 0 {
      BigOfBytes(value, n - 1);
      NextByte(value, n - 1);
      assert BigBytes(value, n)[1..] == BigBytes(value, n - 1);
    }
  }

  lemma SignedOfRemainder(value: int, n: nat)
    requires n >= 1 && InRange(value, n)
    ensures Signed(value % Pow256(n), n) == value
  {
    if value >= 0 {
      DivModUnique(value, Pow256(n), 0, value);
    } else {
      DivModUnique(value, Pow256(n), -1, value + Pow256(n));
    }
  }

  /** Reading back what was written gives the value, in either byte order. */
  lemma ValueRoundTrip(value: int, n: nat)
    requires n >= 1 && InRange(value, n)
    ensures Signed(Little(LittleBytes(value, n)), n) == value
    ensures Signed(Big(BigBytes(value, n)), n) == value
  {
    LittleOfBytes(value, n);
    BigOfBytes(value, n);
    SignedOfRemainder(value, n);
  }

  lemma {:induction false} LittleBounds(b: Bytes)
    ensures 0 <= Little(b) < Pow256(|b|)
  {
    if b != [] {
      var n := |b| - 1;
      LittleBounds(b[..n]);
      MulMono(0, b[n], Pow256(n));
      MulMono(b[n], 0xFF, Pow256(n));
    }
  }

  lemma {:induction false} LittleInjective(a: Bytes, b: Bytes)
    requires |a| == |b| && Little(a) == Little(b)
    ensures a == b
  {
    if a != [] {
      var n := |a| - 1;
      LittleBounds(a[..n]);
      LittleBounds(b[..n]);
      DivModUnique(Little(a), Pow256(n), a[n], Little(a[..n]));
      DivModUnique(Little(b), Pow256(n), b[n], Little(b[..n]));
      LittleInjective(a[..n], b[..n]);
      assert a == a[..n] + [a[n]] && b == b[..n] + [b[n]];
    }
  }

  function Reversed(b: Bytes): (r: Bytes)
    ensures |r| == |b|
  {
    seq(|b|, i requires 0 <= i < |b| => b[|b| - 1 - i])
  }

  lemma {:induction false} BigIsReversedLittle(b: Bytes)
    ensures Big(b) == Little(Reversed(b))
  {
    if b != [] {
      BigIsReversedLittle(b[1..]);
      assert Reversed(b)[..|b| - 1] == Reversed(b[1..]);
    }
  }

  lemma BytesReversed(value: int, n: nat)
    ensures Reversed(LittleBytes(value, n)) == BigBytes(value, n)
  {
    hide ByteAt;
  }

  lemma ReversedTwice(b: Bytes)
    ensures Reversed(Reversed(b)) == b
  {
  }

  lemma LittleBytesBack(b: Bytes)
    requires |b| >= 1
    ensures InRange(Signed(Little(b), |b|), |b|) && LittleBytes(Signed(Little(b), |b|), |b|) == b
  {
    var n := |b|;
    var u := Little(b);
    var value := Signed(u, n);
    LittleBounds(b);
    LittleOfBytes(value, n);
    DivModUnique(value, Pow256(n), if value == u then 0 else -1, u);
    LittleInjective(LittleBytes(value, n), b);
  }

  lemma BigBytesBack(b: Bytes)
    requires |b| >= 1
    ensures InRange(Signed(Big(b), |b|), |b|) && BigBytes(Signed(Big(b), |b|), |b|) == b
  {
    hide InRange, Signed, Little, Big, LittleBytes, BigBytes, Reversed;
    LittleBytesBack(Reversed(b));
    BigIsReversedLittle(b);
    BytesReversed(Signed(Big(b), |b|), |b|);
    ReversedTwice(b);
  }

  /** Every n bytes are the representation of exactly the value read from them, which is in range. */
  lemma BytesRoundTrip(b: Bytes)
    requires |b| >= 1
    ensures InRange(Signed(Little(b), |b|), |b|) && LittleBytes(Signed(Little(b), |b|), |b|) == b
    ensures InRange(Signed(Big(b), |b|), |b|) && BigBytes(Signed(Big(b), |b|), |b|) == b
  {
    hide InRange, Signed, Little, Big, LittleBytes, BigBytes;
    LittleBytesBack(b);
    BigBytesBack(b);
  }

  // ---------------------------------------------------------------- byte order, signs and bounds in numbers

  lemma {:induction false} ByteShift(value: int, i: nat)
    ensures ByteAt(value, i + 1) == ByteAt(value / 256, i)
    ensures value / Pow256(i + 1) == value / 256 / Pow256(i)
  {
    if i == 0 {
      DivModUnique(value / 256, 1, value / 256, 0);
    } else {
      ByteShift(value, i - 1);
      NextByte(value, i);
      NextByte(value / 256, i - 1);
    }
  }

  /** Little-endian puts the low byte first, big-endian last; the rest is the value divided by 256, rounded down. */
  lemma ByteOrder(value: int, n: nat)
    requires n >= 1
    ensures LittleBytes(value, n)[0] == BigBytes(value, n)[n - 1] == value % 256
    ensures LittleBytes(value, n)[1..] == LittleBytes(value / 256, n - 1)
    ensures BigBytes(value, n)[..n - 1] == BigBytes(value / 256, n - 1)
  {
    forall i: nat
      ensures ByteAt(value, i + 1) == ByteAt(value / 256, i)
    {
      ByteShift(value, i);
    }
    DivModUnique(value, 1, value, 0);
  }

  lemma Distribute(x: int, p: int)
    ensures x * (256 * p) == 256 * (x * p)
  {
  }

  lemma EmptyValues()
    ensures Little([]) == Big([]) == 0 && Pow256(0) == 1
  {
  }

  lemma LittleLast(b: Bytes)
    requires b != []
    ensures Little(b) == Little(b[..|b| - 1]) + b[|b| - 1] * Pow256(|b| - 1)
  {
  }

  lemma BigFirst(b: Bytes)
    requires b != []
    ensures Big(b) == b[0] * Pow256(|b| - 1) + Big(b[1..])
  {
  }

  /** Reading in the same orders. */
  lemma {:induction false} ReadOrder(b: Bytes)
    requires b != []
    ensures Little(b) == (b[0] as int) + 256 * Little(b[1..])
    ensures Big(b) == 256 * Big(b[..|b| - 1]) + b[|b| - 1]
    decreases |b|
  {
    hide Little, Big;
    var n := |b| - 1;
    LittleLast(b);
    BigFirst(b);
    if n == 0 {
      EmptyValues();
      assert b[..0] == [] && b[1..] == [];
    } else {
      ReadOrder(b[..n]);
      ReadOrder(b[1..]);
      LittleLast(b[1..]);
      BigFirst(b[..n]);
      assert b[..n][1..] == b[1..][..n - 1];
      assert Pow256(n) == 256 * Pow256(n - 1);
      Distribute(b[n], Pow256(n - 1));
      Distribute(b[0], Pow256(n - 1));
    }
  }

  lemma Powers()
    ensures Pow256(0) == 1 && Pow256(1) == 0x100 && Pow256(2) == 0x1_0000 && Pow256(3) == 0x100_0000
    ensures Pow256(4) == 0x1_0000_0000 && Pow256(5) == 0x100_0000_0000 && Pow256(6) == 0x1_0000_0000_0000
  {
    assert Pow256(2) == 0x1_0000;
    assert Pow256(4) == 0x1_0000_0000;
  }

  /** The bounds of the six lengths, and that a top bit set subtracts one power of 256. */
  lemma Bounds(unsigned: int)
    ensures InRange(unsigned, 1) <==> -0x80 <= unsigned <= 0x7F
    ensures InRange(unsigned, 2) <==> -0x8000 <= unsigned <= 0x7FFF
    ensures InRange(unsigned, 3) <==> -0x80_0000 <= unsigned <= 0x7F_FFFF
    ensures InRange(unsigned, 4) <==> -0x8000_0000 <= unsigned <= 0x7FFF_FFFF
    ensures InRange(unsigned, 5) <==> -0x80_0000_0000 <= unsigned <= 0x7F_FFFF_FFFF
    ensures InRange(unsigned, 6) <==> -0x8000_0000_0000 <= unsigned <= 0x7FFF_FFFF_FFFF
    ensures 0 <= unsigned <= 0xFFFF_FFFF ==>
              Signed(unsigned, 4) == if unsigned <= 0x7FFF_FFFF then unsigned else unsigned - 0x1_0000_0000
  {
    Powers();
    hide Pow256;
  }

  // ---------------------------------------------------------------- the loops

  datatype Error = ValueOutOfBounds | IndexOutOfRange

  predicate Writable(length: nat, value: int, offset: nat, byteLength: nat)
    requires byteLength >= 1
  {
    InRange(value, byteLength) && offset + byteLength <= length
  }

  /** `checkInt`. */
  function CheckInt(length: nat, value: int, offset: nat, byteLength: nat): Option<Error>
    requires byteLength >= 1
  {
    var limit := Pow256(byteLength - 1) * 0x80;
    if value > limit - 1 || value < -limit then Some(ValueOutOfBounds)
    else if offset + byteLength > length then Some(IndexOutOfRange)
    else None
  }

  /** Which error a write reports: the value is looked at before the place. */
  lemma CheckIntMeans(length: nat, value: int, offset: nat, byteLength: nat)
    requires byteLength >= 1
    ensures CheckInt(length, value, offset, byteLength) == Some(ValueOutOfBounds) <==> !InRange(value, byteLength)
    ensures CheckInt(length, value, offset, byteLength) == Some(IndexOutOfRange)
            <==> InRange(value, byteLength) && offset + byteLength > length
  {
  }

  /** The borrow and the division for byte `i`, from the byte written before it. */
  lemma WriteStep(value: int, i: nat, sub: int, previous: Byte, sub': int)
    requires i >= 1 && previous == ByteAt(value, i - 1)
    requires sub == if value < 0 && value % Pow256(i - 1) != 0 then 1 else 0
    requires sub' == if value < 0 && sub == 0 && previous != 0 then 1 else sub
    ensures sub' == if value < 0 && value % Pow256(i) != 0 then 1 else 0
    ensures And255(ToInt32(Truncated(value, Pow256(i))) - sub') == ByteAt(value, i)
  {
    hide And255, ToInt32, Truncated;
    NextByte(value, i - 1);
    BorrowMakesFloor(value, Pow256(i));
    And255IsLowByte(Truncated(value, Pow256(i)), sub');
  }

  /** A buffer that differs from what it was only where a piece was written. */
  lemma Spliced(before: Bytes, after: Bytes, offset: nat, piece: Bytes)
    requires |after| == |before| && offset + |piece| <= |before|
    requires forall p :: 0 <= p < |piece| ==> after[offset + p] == piece[p]
    requires forall p :: 0 <= p < |before| && !(offset <= p < offset + |piece|) ==> after[p] == before[p]
    ensures after == before[..offset] + piece + before[offset + |piece|..]
  {
    forall q | 0 <= q < |after|
      ensures after[q] == (before[..offset] + piece + before[offset + |piece|..])[q]
    {
      if offset <= q < offset + |piece| {
        assert after[offset + (q - offset)] == piece[q - offset];
      }
    }
  }

  lemma FirstByte(value: int)
    ensures And255(value) == ByteAt(value, 0) && value % Pow256(0) == 0
  {
    hide And255;
    And255IsLowByte(value, 0);
    DivModUnique(value, 1, value, 0);
  }

  method WriteIntLE(buf: array<Byte>, value: int, offset: nat, byteLength: nat) returns (r: Result<nat, Error>)
    requires 1 <= byteLength <= 6
    modifies buf
    ensures CheckInt(buf.Length, value, offset, byteLength).Some? ==>
              r == Err(CheckInt(buf.Length, value, offset, byteLength).value) && buf[..] == old(buf[..])
    ensures Writable(buf.Length, value, offset, byteLength) ==>
              && r == Ok(offset + byteLength)
              && buf[..] == old(buf[..offset]) + LittleBytes(value, byteLength) + old(buf[offset + byteLength..])
  {
    hide And255, ToInt32, Truncated, ByteAt;
    var error := CheckInt(buf.Length, value, offset, byteLength);
    if error.Some? {
      return Err(error.value);
    }
    ghost var before := buf[..];
    FirstByte(value);
    var i, mul, sub := 0, 1, 0;
    buf[offset] := And255(value);
    i := i + 1;
    while i < byteLength
      invariant 1 <= i <= byteLength && mul == Pow256(i - 1)
      invariant sub == if value < 0 && value % Pow256(i - 1) != 0 then 1 else 0
      invariant forall p :: 0 <= p < i ==> buf[offset + p] == ByteAt(value, p)
      invariant forall p :: 0 <= p < buf.Length && !(offset <= p < offset + i) ==> buf[p] == before[p]
    {
      mul := mul * 0x100;
      ghost var sub0 := sub;
      if value < 0 && sub == 0 && buf[offset + i - 1] != 0 {
        sub := 1;
      }
      WriteStep(value, i, sub0, buf[offset + i - 1], sub);
      buf[offset + i] := And255(ToInt32(Truncated(value, mul)) - sub);
      i := i + 1;
    }
    Spliced(before, buf[..], offset, LittleBytes(value, byteLength));
    r := Ok(offset + byteLength);
  }

  method WriteIntBE(buf: array<Byte>, value: int, offset: nat, byteLength: nat) returns (r: Result<nat, Error>)
    requires 1 <= byteLength <= 6
    modifies buf
    ensures CheckInt(buf.Length, value, offset, byteLength).Some? ==>
              r == Err(CheckInt(buf.Length, value, offset, byteLength).value) && buf[..] == old(buf[..])
    ensures Writable(buf.Length, value, offset, byteLength) ==>
              && r == Ok(offset + byteLength)
              && buf[..] == old(buf[..offset]) + BigBytes(value, byteLength) + old(buf[offset + byteLength..])
  {
    hide And255, ToInt32, Truncated, ByteAt;
    var error := CheckInt(buf.Length, value, offset, byteLength);
    if error.Some? {
      return Err(error.value);
    }
    ghost var before := buf[..];
    FirstByte(value);
    var i, mul, sub := byteLength - 1, 1, 0;
    buf[offset + i] := And255(value);
    i := i - 1;
    while i >= 0
      invariant -1 <= i <= byteLength - 2 && mul == Pow256(byteLength - 2 - i)
      invariant sub == if value < 0 && value % Pow256(byteLength - 2 - i) != 0 then 1 else 0
      invariant forall p :: offset + i < p < offset + byteLength ==>
                  buf[p] == ByteAt(value, offset + byteLength - 1 - p)
      invariant forall p :: 0 <= p < buf.Length && !(offset + i < p < offset + byteLength) ==> buf[p] == before[p]
    {
      mul := mul * 0x100;
      ghost var sub0 := sub;
      if value < 0 && sub == 0 && buf[offset + i + 1] != 0 {
        sub := 1;
      }
      WriteStep(value, byteLength - 1 - i, sub0, buf[offset + i + 1], sub);
      buf[offset + i] := And255(ToInt32(Truncated(value, mul)) - sub);
      i := i - 1;
    }
    Spliced(before, buf[..], offset, BigBytes(value, byteLength));
    r := Ok(offset + byteLength);
  }

  method ReadIntLE(buf: array<Byte>, offset: nat, byteLength: nat) returns (r: Result<int, Error>)
    requires 1 <= byteLength <= 6
    ensures r == if offset + byteLength > buf.Length then Err(IndexOutOfRange)
                 else Ok(Signed(Little(buf[offset..offset + byteLength]), byteLength))
  {
    if offset + byteLength > buf.Length {
      return Err(IndexOutOfRange);
    }
    var val: int, mul: int, i := buf[offset], 1, 1;
    assert buf[offset..offset + 1] == [buf[offset]];
    while i < byteLength
      invariant 1 <= i <= byteLength && mul == Pow256(i - 1)
      invariant val == Little(buf[offset..offset + i])
    {
      mul := mul * 0x100;
      assert buf[offset..offset + i + 1][..i] == buf[offset..offset + i];
      val := val + buf[offset + i] * mul;
      i := i + 1;
    }
    mul := mul * 0x80;
    if val >= mul {
      val := val - Pow256(byteLength);
    }
    r := Ok(val);
  }

  method ReadIntBE(buf: array<Byte>, offset: nat, byteLength: nat) returns (r: Result<int, Error>)
    requires 1 <= byteLength <= 6
    ensures r == if offset + byteLength > buf.Length then Err(IndexOutOfRange)
                 else Ok(Signed(Big(buf[offset..offset + byteLength]), byteLength))
  {
    if offset + byteLength > buf.Length {
      return Err(IndexOutOfRange);
    }
    var i, mul: int := byteLength - 1, 1;
    var val: int := buf[offset + i];
    assert buf[offset + i..offset + byteLength] == [buf[offset + i]];
    while i > 0
      invariant 0 <= i < byteLength && mul == Pow256(byteLength - 1 - i)
      invariant val == Big(buf[offset + i..offset + byteLength])
    {
      mul := mul * 0x100;
      i := i - 1;
      assert buf[offset + i..offset + byteLength][1..] == buf[offset + i + 1..offset + byteLength];
      val := val + buf[offset + i] * mul;
    }
    mul := mul * 0x80;
    if val >= mul {
      val := val - Pow256(byteLength);
    }
    r := Ok(val);
  }
}
