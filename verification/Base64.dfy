/**
 * The Base64 codec of the bundle (section 4 of RFC 4648): chunked encoding with padding, and a decoder that also
 * accepts the URL-safe alphabet and reads unknown characters as zero.
 */
module Base64 {
  import opened JsStrings

  const PAD: CodeUnit := 61

  // ---------------------------------------------------------------- alphabet

  function Lookup(i: int): (c: CodeUnit)
    requires 0 <= i < 64
    ensures c != PAD
  {
    if i < 26 then 65 + i else if i < 52 then 71 + i else if i < 62 then i - 4 else if i == 62 then 43 else 47
  }

  /** The reverse table; a missing entry acts as 0 in every bit operation. */
  function RevLookup(c: CodeUnit): (i: int)
    ensures 0 <= i < 64
  {
    if 65 <= c <= 90 then c - 65
    else if 97 <= c <= 122 then c - 71
    else if 48 <= c <= 57 then c + 4
    else if c == 43 || c == 45 then 62
    else if c == 47 || c == 95 then 63
    else 0
  }

  const UPPER := "ABCDEFGHIJKLMNOPQRSTUVWXYZ"

  const LOWER := "abcdefghijklmnopqrstuvwxyz"

  const DECIMAL := "0123456789"

  lemma Letters(i: nat)
    requires i < 26
    ensures |UPPER| == |LOWER| == 26 && UPPER[i] as int == 65 + i && LOWER[i] as int == 97 + i
  {
    assert UPPER[0] == 'A' && UPPER[25] == 'Z' && LOWER[0] == 'a' && LOWER[25] == 'z';
  }

  lemma Decimals(i: nat)
    requires i < 10
    ensures |DECIMAL| == 10 && DECIMAL[i] as int == 48 + i
  {
    assert DECIMAL[0] == '0' && DECIMAL[9] == '9';
  }

  /** Table 1 of RFC 4648: capital letters, small letters, decimal digits, "+" and "/"; and "=" for padding. */
  lemma AlphabetTable(i: nat)
    requires i < 64
    ensures |UPPER| == 26 && |LOWER| == 26 && |DECIMAL| == 10
    ensures Lookup(i) == (UPPER + LOWER + DECIMAL + "+/")[i] as int && PAD == '=' as int
  {
    if i < 26 {
      Letters(i);
    } else if i < 52 {
      Letters(i - 26);
    } else if i < 62 {
      Decimals(i - 52);
    }
  }

  /** The decoder's table is its inverse, takes "-" and "_" for "+" and "/", and anything else for 0. */
  lemma ReverseTable(i: nat, c: CodeUnit)
    requires i < 64
    ensures RevLookup(Lookup(i)) == i
    ensures RevLookup('-' as int) == RevLookup('+' as int) == 62 && RevLookup('_' as int) == RevLookup('/' as int) == 63
    ensures c !in {43, 45, 47, 95} && !(48 <= c <= 57) && !(65 <= c <= 90) && !(97 <= c <= 122) ==> RevLookup(c) == 0
  {
  }

  predicate InAlphabet(c: CodeUnit) {
    65 <= c <= 90 || 97 <= c <= 122 || 48 <= c <= 57 || c == 43 || c == 47
  }

  lemma LookupRoundTrip(i: int)
    requires 0 <= i < 64
    ensures RevLookup(Lookup(i)) == i && InAlphabet(Lookup(i))
  {
  }

  lemma AlphabetRoundTrip(c: CodeUnit)
    requires InAlphabet(c)
    ensures Lookup(RevLookup(c)) == c
  {
  }

  // ---------------------------------------------------------------- groups

  function Num24(a: int, b: int, c: int): int {
    a * 0x1_0000 + b * 0x100 + c
  }

  function Sextets(num: int): (int, int, int, int) {
    (num / 0x4_0000 % 64, num / 0x1000 % 64, num / 64 % 64, num % 64)
  }

  function FromSextets(p: int, q: int, r: int, s: int): int {
    p * 0x4_0000 + q * 0x1000 + r * 64 + s
  }

  lemma SplitDigits(high: int, low: int, base: int)
    requires base in {4, 16, 64, 256, 1024} && 0 <= low < base
    ensures (high * base + low) / base == high && (high * base + low) % base == low
  {
  }

  /** Four sextets carry a 24-bit number. */
  lemma SextetsCarry(num: int)
    requires 0 <= num < 0x100_0000
    ensures var (p, q, r, s) := Sextets(num);
            0 <= p < 64 && 0 <= q < 64 && 0 <= r < 64 && 0 <= s < 64 && FromSextets(p, q, r, s) == num
  {
    assert num / 0x1000 == num / 64 / 64;
    assert num / 0x4_0000 == num / 64 / 64 / 64;
  }

  lemma SextetsOf(p: int, q: int, r: int, s: int)
    requires 0 <= p < 64 && 0 <= q < 64 && 0 <= r < 64 && 0 <= s < 64
    ensures var num := FromSextets(p, q, r, s);
            0 <= num < 0x100_0000 && Sextets(num) == (p, q, r, s)
  {
    var num := FromSextets(p, q, r, s);
    SplitDigits((p * 64 + q) * 64 + r, s, 64);
    SplitDigits(p * 64 + q, r, 64);
    SplitDigits(p, q, 64);
    assert num == ((p * 64 + q) * 64 + r) * 64 + s;
    assert num / 0x1000 == num / 64 / 64;
    assert num / 0x4_0000 == num / 64 / 64 / 64;
  }

  function BytesOf24(num: int): (int, int, int) {
    (num / 0x1_0000 % 256, num / 0x100 % 256, num % 256)
  }

  lemma BytesCarry(num: int)
    requires 0 <= num < 0x100_0000
    ensures var (a, b, c) := BytesOf24(num);
            0 <= a < 256 && 0 <= b < 256 && 0 <= c < 256 && Num24(a, b, c) == num
  {
    assert num / 0x1_0000 == num / 0x100 / 0x100;
  }

  lemma BytesOf(a: Byte, b: Byte, c: Byte)
    ensures 0 <= Num24(a, b, c) < 0x100_0000 && BytesOf24(Num24(a, b, c)) == (a, b, c)
  {
    var num := Num24(a, b, c);
    SplitDigits(a * 256 + b, c, 256);
    SplitDigits(a, b, 256);
    assert num == (a * 256 + b) * 256 + c;
    assert num / 0x1_0000 == num / 0x100 / 0x100;
  }

  // ---------------------------------------------------------------- specification

  function Triplet(a: Byte, b: Byte, c: Byte): (s: JsString)
    ensures |s| == 4
  {
    BytesOf(a, b, c);
    var num := Num24(a, b, c);
    SextetsCarry(num);
    var (p, q, r, t) := Sextets(num);
    [Lookup(p), Lookup(q), Lookup(r), Lookup(t)]
  }

  /** `groups` groups of three bytes. */
  function EncodeTriplets(b: Bytes, groups: nat): (s: JsString)
    requires |b| == 3 * groups
    ensures |s| == 4 * groups
    decreases groups
  {
    if groups == 0 then [] else Triplet(b[0], b[1], b[2]) + EncodeTriplets(b[3..], groups - 1)
  }

  function Tail1(x: int): (s: JsString)
    requires 0 <= x < 256
    ensures |s| == 4
  {
    [Lookup(x / 4), Lookup(x * 16 % 64), PAD, PAD]
  }

  function Tail2(x: int, y: int): (s: JsString)
    requires 0 <= x < 256 && 0 <= y < 256
    ensures |s| == 4
  {
    var tmp := x * 256 + y;
    [Lookup(tmp / 1024), Lookup(tmp / 16 % 64), Lookup(tmp * 4 % 64), PAD]
  }

  lemma CeilThird(n: nat, groups: nat)
    requires groups == n / 3
    ensures 3 * groups <= n <= 3 * groups + 2
    ensures (n + 2) / 3 == if n == 3 * groups then groups else groups + 1
  {
  }

  /** All whole groups, then the one or two bytes that are left, padded. */
  function Encoded(b: Bytes): (s: JsString)
    ensures |s| == (|b| + 2) / 3 * 4
  {
    var groups := |b| / 3;
    var whole := 3 * groups;
    CeilThird(|b|, groups);
    EncodeTriplets(b[..whole], groups)
    + (if |b| == whole then [] else if |b| == whole + 1 then Tail1(b[whole]) else Tail2(b[whole], b[whole + 1]))
  }

  function Quad(s: JsString): (b: Bytes)
    requires |s| == 4
    ensures |b| == 3
  {
    var num := FromSextets(RevLookup(s[0]), RevLookup(s[1]), RevLookup(s[2]), RevLookup(s[3]));
    SextetsOf(RevLookup(s[0]), RevLookup(s[1]), RevLookup(s[2]), RevLookup(s[3]));
    BytesCarry(num);
    var (x, y, z) := BytesOf24(num);
    [x, y, z]
  }

  function DecodeQuads(s: JsString, groups: nat): (b: Bytes)
    requires |s| == 4 * groups
    ensures |b| == 3 * groups
    decreases groups
  {
    if groups == 0 then [] else Quad(s[..4]) + DecodeQuads(s[4..], groups - 1)
  }

  /** The byte that two characters carry before "==". */
  function OneByte(c0: CodeUnit, c1: CodeUnit): Byte {
    (RevLookup(c0) * 4 + RevLookup(c1) / 16) % 256
  }

  /** The two bytes that three characters carry before "=". */
  function TwoBytes(c0: CodeUnit, c1: CodeUnit, c2: CodeUnit): (b: Bytes)
    ensures |b| == 2
  {
    var tmp := RevLookup(c0) * 1024 + RevLookup(c1) * 16 + RevLookup(c2) / 4;
    [tmp / 256 % 256, tmp % 256]
  }

  function IndexOfPad(s: JsString): (n: nat)
    ensures n <= |s|
    ensures n < |s| ==> s[n] == PAD
    ensures forall p :: 0 <= p < n ==> s[p] != PAD
  {
    if s == [] || s[0] == PAD then 0 else 1 + IndexOfPad(s[1..])
  }

  datatype Error = LengthNotMultipleOf4 | NegativeArrayLength

  /** What stands before the first "=", in groups of four, and what is left of the last group. */
  function DecodedBefore(s: JsString, groups: nat, left: nat): Result<Bytes, Error>
    requires |s| == 4 * groups + left && left < 4
  {
    var front := s[..4 * groups];
    match left
    case 3 => Ok(DecodeQuads(front, groups) + TwoBytes(s[4 * groups], s[4 * groups + 1], s[4 * groups + 2]))
    case 2 => Ok(DecodeQuads(front, groups) + [OneByte(s[4 * groups], s[4 * groups + 1])])
    case 1 => Ok(DecodeQuads(front, groups))
    case _ =>
      if groups == 0 then Err(NegativeArrayLength)
      else Ok(DecodeQuads(s[..4 * (groups - 1)], groups - 1) + [0, 0])
  }

  /** An "=" right after a whole group loses that group: two zero bytes take its place. */
  function Decoded(s: JsString): Result<Bytes, Error> {
    var valid := IndexOfPad(s);
    if |s| % 4 != 0 then Err(LengthNotMultipleOf4)
    else if valid == |s| then Ok(DecodeQuads(s, |s| / 4))
    else DecodedBefore(s[..valid], valid / 4, valid % 4)
  }

  // ---------------------------------------------------------------- round trips

  predicate AllInAlphabet(s: JsString) {
    forall p :: 0 <= p < |s| ==> InAlphabet(s[p])
  }

  lemma AlphabetConcat(s: JsString, t: JsString)
    ensures AllInAlphabet(s + t) <==> AllInAlphabet(s) && AllInAlphabet(t)
  {
    assert forall p :: 0 <= p < |t| ==> t[p] == (s + t)[|s| + p];
    assert forall p :: 0 <= p < |s| ==> s[p] == (s + t)[p];
  }

  lemma TripletRoundTrip(a: Byte, b: Byte, c: Byte)
    ensures Quad(Triplet(a, b, c)) == [a, b, c] && AllInAlphabet(Triplet(a, b, c))
  {
    hide Num24, Sextets, FromSextets, BytesOf24, Lookup, RevLookup, InAlphabet;
    BytesOf(a, b, c);
    var num := Num24(a, b, c);
    SextetsCarry(num);
    var (p, q, r, t) := Sextets(num);
    LookupRoundTrip(p);
    LookupRoundTrip(q);
    LookupRoundTrip(r);
    LookupRoundTrip(t);
  }

  lemma QuadRoundTrip(s: JsString)
    requires |s| == 4 && AllInAlphabet(s)
    ensures Triplet(Quad(s)[0], Quad(s)[1], Quad(s)[2]) == s
  {
    hide Num24, Sextets, FromSextets, BytesOf24, Lookup, RevLookup, InAlphabet;
    SextetsOf(RevLookup(s[0]), RevLookup(s[1]), RevLookup(s[2]), RevLookup(s[3]));
    BytesCarry(FromSextets(RevLookup(s[0]), RevLookup(s[1]), RevLookup(s[2]), RevLookup(s[3])));
    AlphabetRoundTrip(s[0]);
    AlphabetRoundTrip(s[1]);
    AlphabetRoundTrip(s[2]);
    AlphabetRoundTrip(s[3]);
  }

  lemma EncodeCons(a: Byte, b: Byte, c: Byte, rest: Bytes, groups: nat)
    requires |rest| == 3 * groups
    ensures EncodeTriplets([a, b, c] + rest, groups + 1) == Triplet(a, b, c) + EncodeTriplets(rest, groups)
  {
    assert ([a, b, c] + rest)[3..] == rest;
  }

  lemma DecodeCons(first: JsString, rest: JsString, groups: nat)
    requires |first| == 4 && |rest| == 4 * groups
    ensures DecodeQuads(first + rest, groups + 1) == Quad(first) + DecodeQuads(rest, groups)
  {
    assert (first + rest)[..4] == first && (first + rest)[4..] == rest;
  }

  lemma {:induction false} TripletsRoundTrip(b: Bytes, groups: nat)
    requires |b| == 3 * groups
    ensures DecodeQuads(EncodeTriplets(b, groups), groups) == b
    ensures AllInAlphabet(EncodeTriplets(b, groups))
    decreases groups
  {
    hide Triplet, Quad, InAlphabet;
    if groups == 0 {
      assert b == [];
    } else {
      hide AllInAlphabet;
      var first, rest := Triplet(b[0], b[1], b[2]), EncodeTriplets(b[3..], groups - 1);
      TripletRoundTrip(b[0], b[1], b[2]);
      TripletsRoundTrip(b[3..], groups - 1);
      AlphabetConcat(first, rest);
      DecodeCons(first, rest, groups - 1);
      assert b == [b[0], b[1], b[2]] + b[3..];
    }
  }

  lemma {:induction false} QuadsRoundTrip(s: JsString, groups: nat)
    requires |s| == 4 * groups && AllInAlphabet(s)
    ensures EncodeTriplets(DecodeQuads(s, groups), groups) == s
    decreases groups
  {
    hide Triplet, Quad, InAlphabet;
    if groups == 0 {
      assert s == [];
    } else {
      hide AllInAlphabet;
      var first, rest := Quad(s[..4]), DecodeQuads(s[4..], groups - 1);
      assert s == s[..4] + s[4..];
      AlphabetConcat(s[..4], s[4..]);
      QuadRoundTrip(s[..4]);
      QuadsRoundTrip(s[4..], groups - 1);
      assert first == [first[0], first[1], first[2]];
      EncodeCons(first[0], first[1], first[2], rest, groups - 1);
    }
  }

  lemma SplitThree(a: Bytes, b: Bytes)
    requires |a| >= 3
    ensures a == [a[0], a[1], a[2]] + a[3..] && a + b == [a[0], a[1], a[2]] + (a[3..] + b)
  {
  }

  lemma Assoc(a: JsString, b: JsString, c: JsString)
    ensures a + b + c == a + (b + c)
  {
  }

  lemma {:induction false} EncodeConcat(a: Bytes, m: nat, b: Bytes, n: nat)
    requires |a| == 3 * m && |b| == 3 * n
    ensures EncodeTriplets(a + b, m + n) == EncodeTriplets(a, m) + EncodeTriplets(b, n)
    decreases m
  {
    if m == 0 {
      assert a + b == b;
    } else {
      hide Triplet, EncodeTriplets;
      var rest := a[3..];
      EncodeConcat(rest, m - 1, b, n);
      EncodeCons(a[0], a[1], a[2], rest, m - 1);
      EncodeCons(a[0], a[1], a[2], rest + b, m + n - 1);
      SplitThree(a, b);
      Assoc(Triplet(a[0], a[1], a[2]), EncodeTriplets(rest, m - 1), EncodeTriplets(b, n));
    }
  }

  lemma Sum8(x: int)
    requires 0 <= x < 256
    ensures x / 4 * 4 + x * 16 % 64 / 16 == x && x * 16 % 64 % 16 == 0
  {
    assert x * 16 % 64 == x % 4 * 16;
  }

  lemma Tail1RoundTrip(x: int)
    requires 0 <= x < 256
    ensures var s := Tail1(x);
            OneByte(s[0], s[1]) == x && InAlphabet(s[0]) && InAlphabet(s[1]) && RevLookup(s[1]) % 16 == 0
  {
    hide Lookup, RevLookup, InAlphabet;
    var high, low := x / 4, x * 16 % 64;
    Sum8(x);
    assert (high * 4 + low / 16) % 256 == x;
    LookupRoundTrip(high);
    LookupRoundTrip(low);
  }

  lemma Sum12(tmp: int)
    requires 0 <= tmp < 0x1_0000
    ensures tmp / 1024 * 1024 + tmp / 16 % 64 * 16 + tmp * 4 % 64 / 4 == tmp
    ensures tmp * 4 % 64 % 4 == 0
  {
    assert tmp / 1024 == tmp / 16 / 64;
    assert tmp * 4 % 64 == tmp % 16 * 4;
  }

  lemma TwoBytesOf(c0: CodeUnit, c1: CodeUnit, c2: CodeUnit, x: int, y: int)
    requires 0 <= x < 256 && 0 <= y < 256
    requires RevLookup(c0) * 1024 + RevLookup(c1) * 16 + RevLookup(c2) / 4 == x * 256 + y
    ensures TwoBytes(c0, c1, c2) == [x, y]
  {
    hide RevLookup;
    SplitDigits(x, y, 256);
  }

  lemma Tail2RoundTrip(x: int, y: int)
    requires 0 <= x < 256 && 0 <= y < 256
    ensures var s := Tail2(x, y);
            && TwoBytes(s[0], s[1], s[2]) == [x, y]
            && InAlphabet(s[0]) && InAlphabet(s[1]) && InAlphabet(s[2]) && RevLookup(s[2]) % 4 == 0
  {
    hide Lookup, RevLookup, InAlphabet;
    hide TwoBytes;
    var tmp := x * 256 + y;
    var high, middle, low := tmp / 1024, tmp / 16 % 64, tmp * 4 % 64;
    Sum12(tmp);
    LookupRoundTrip(high);
    LookupRoundTrip(middle);
    LookupRoundTrip(low);
    TwoBytesOf(Lookup(high), Lookup(middle), Lookup(low), x, y);
  }

  /** Where the first "=" of an encoding is, and what stands before it. */
  lemma PadPosition(body: JsString, tail: JsString, kept: nat)
    requires kept <= |tail| && (kept < |tail| ==> tail[kept] == PAD)
    requires AllInAlphabet(body) && AllInAlphabet(tail[..kept])
    ensures IndexOfPad(body + tail) == |body| + kept
    ensures (body + tail)[..|body| + kept] == body + tail[..kept]
  {
    var s := body + tail;
    assert forall p :: |body| <= p < |body| + kept ==> s[p] == tail[..kept][p - |body|];
    assert forall p :: 0 <= p < |body| ==> s[p] == body[p];
    assert kept < |tail| ==> s[|body| + kept] == PAD;
  }

  /** Canonical text: the standard alphabet, at most two "=" at the very end, and no bits set that padding discards. */
  predicate Canonical(s: JsString) {
    var valid := IndexOfPad(s);
    && |s| % 4 == 0 && |s| - valid <= 2
    && AllInAlphabet(s[..valid])
    && (forall p :: valid <= p < |s| ==> s[p] == PAD)
    && (|s| - valid == 2 ==> RevLookup(s[valid - 1]) % 16 == 0)
    && (|s| - valid == 1 ==> RevLookup(s[valid - 1]) % 4 == 0)
  }

  lemma TailOf1(body: JsString, groups: nat, x: Byte)
    requires |body| == 4 * groups && AllInAlphabet(body)
    ensures Decoded(body + Tail1(x)) == Ok(DecodeQuads(body, groups) + [x]) && Canonical(body + Tail1(x))
  {
    hide DecodeQuads, OneByte, Lookup, RevLookup, InAlphabet;
    Tail1RoundTrip(x);
    var tail := Tail1(x);
    PadPosition(body, tail, 2);
    AlphabetConcat(body, tail[..2]);
    assert (body + tail[..2])[..4 * groups] == body;
    assert (4 * groups + 2) / 4 == groups && (4 * groups + 2) % 4 == 2;
  }

  lemma TailOf2(body: JsString, groups: nat, x: Byte, y: Byte)
    requires |body| == 4 * groups && AllInAlphabet(body)
    ensures Decoded(body + Tail2(x, y)) == Ok(DecodeQuads(body, groups) + [x, y]) && Canonical(body + Tail2(x, y))
  {
    hide DecodeQuads, TwoBytes, Lookup, RevLookup, InAlphabet;
    Tail2RoundTrip(x, y);
    var tail := Tail2(x, y);
    PadPosition(body, tail, 3);
    AlphabetConcat(body, tail[..3]);
    assert (body + tail[..3])[..4 * groups] == body;
    assert (4 * groups + 3) / 4 == groups && (4 * groups + 3) % 4 == 3;
  }

  /** Every byte sequence survives encoding and decoding, and its encoding is canonical. */
  lemma BytesRoundTrip(b: Bytes)
    ensures Decoded(Encoded(b)) == Ok(b) && Canonical(Encoded(b))
  {
    hide EncodeTriplets, DecodeQuads, OneByte, TwoBytes, Lookup, RevLookup, InAlphabet, Tail1, Tail2;
    var groups := |b| / 3;
    var whole := 3 * groups;
    var body := EncodeTriplets(b[..whole], groups);
    TripletsRoundTrip(b[..whole], groups);
    if |b| == whole {
      assert b[..whole] == b && body + [] == body;
      PadPosition(body, [], 0);
    } else if |b| == whole + 1 {
      TailOf1(body, groups, b[whole]);
      assert b == b[..whole] + [b[whole]];
    } else {
      TailOf2(body, groups, b[whole], b[whole + 1]);
      assert b == b[..whole] + [b[whole], b[whole + 1]];
    }
  }

  lemma Tail1Back(c0: CodeUnit, c1: CodeUnit)
    requires InAlphabet(c0) && InAlphabet(c1) && RevLookup(c1) % 16 == 0
    ensures Tail1(OneByte(c0, c1)) == [c0, c1, PAD, PAD]
  {
    hide Lookup, RevLookup, InAlphabet;
    AlphabetRoundTrip(c0);
    AlphabetRoundTrip(c1);
    SplitDigits(RevLookup(c0), RevLookup(c1) / 16, 4);
  }

  lemma Split12(p: int, q: int, r: int)
    requires 0 <= p < 64 && 0 <= q < 64 && 0 <= r < 16
    ensures var tmp := p * 1024 + q * 16 + r;
            && 0 <= tmp < 0x1_0000 && tmp / 1024 == p && tmp / 16 % 64 == q && tmp * 4 % 64 == r * 4
            && tmp / 256 % 256 * 256 + tmp % 256 == tmp
  {
    var tmp := p * 1024 + q * 16 + r;
    SplitDigits(p * 64 + q, r, 16);
    SplitDigits(p, q, 64);
    assert tmp == (p * 64 + q) * 16 + r;
    assert tmp / 1024 == tmp / 16 / 64;
    assert tmp * 4 % 64 == tmp % 16 * 4;
  }

  lemma Tail2Back(c0: CodeUnit, c1: CodeUnit, c2: CodeUnit)
    requires InAlphabet(c0) && InAlphabet(c1) && InAlphabet(c2) && RevLookup(c2) % 4 == 0
    ensures Tail2(TwoBytes(c0, c1, c2)[0], TwoBytes(c0, c1, c2)[1]) == [c0, c1, c2, PAD]
  {
    hide Lookup, RevLookup, InAlphabet;
    AlphabetRoundTrip(c0);
    AlphabetRoundTrip(c1);
    AlphabetRoundTrip(c2);
    Split12(RevLookup(c0), RevLookup(c1), RevLookup(c2) / 4);
  }

  lemma Canonical0(s: JsString, groups: nat)
    requires |s| == 4 * groups && AllInAlphabet(s) && IndexOfPad(s) == |s|
    ensures Decoded(s).Ok? && Encoded(Decoded(s).value) == s
  {
    hide EncodeTriplets, DecodeQuads, Lookup, RevLookup, InAlphabet, IndexOfPad;
    QuadsRoundTrip(s, groups);
    var b := DecodeQuads(s, groups);
    assert b[..3 * groups] == b;
  }

  lemma Canonical1(body: JsString, groups: nat, c0: CodeUnit, c1: CodeUnit)
    requires |body| == 4 * groups && AllInAlphabet(body) && InAlphabet(c0) && InAlphabet(c1) && RevLookup(c1) % 16 == 0
    ensures var s := body + [c0, c1, PAD, PAD];
            Decoded(s).Ok? && Encoded(Decoded(s).value) == s
  {
    hide EncodeTriplets, DecodeQuads, OneByte, TwoBytes, Lookup, RevLookup, InAlphabet, Tail1, Tail2, IndexOfPad;
    QuadsRoundTrip(body, groups);
    Tail1Back(c0, c1);
    var front, x := DecodeQuads(body, groups), OneByte(c0, c1);
    TailOf1(body, groups, x);
    assert (front + [x])[..3 * groups] == front;
  }

  lemma Canonical2(body: JsString, groups: nat, c0: CodeUnit, c1: CodeUnit, c2: CodeUnit)
    requires |body| == 4 * groups && AllInAlphabet(body)
    requires InAlphabet(c0) && InAlphabet(c1) && InAlphabet(c2) && RevLookup(c2) % 4 == 0
    ensures var s := body + [c0, c1, c2, PAD];
            Decoded(s).Ok? && Encoded(Decoded(s).value) == s
  {
    hide EncodeTriplets, DecodeQuads, OneByte, TwoBytes, Lookup, RevLookup, InAlphabet, Tail1, Tail2, IndexOfPad;
    QuadsRoundTrip(body, groups);
    Tail2Back(c0, c1, c2);
    var front, two := DecodeQuads(body, groups), TwoBytes(c0, c1, c2);
    TailOf2(body, groups, two[0], two[1]);
    assert two == [two[0], two[1]] && (front + two)[..3 * groups] == front;
  }

  lemma CanonicalRoundTrip(s: JsString)
    requires Canonical(s)
    ensures Decoded(s).Ok? && Encoded(Decoded(s).value) == s
  {
    hide EncodeTriplets, DecodeQuads, OneByte, TwoBytes, Lookup, RevLookup, InAlphabet, Tail1, Tail2, Encoded, Decoded;
    var valid := IndexOfPad(s);
    var groups := valid / 4;
    var body := s[..4 * groups];
    assert s[..valid] == body + s[4 * groups..valid];
    AlphabetConcat(body, s[4 * groups..valid]);
    if valid == |s| {
      assert body == s;
      Canonical0(s, groups);
    } else if |s| - valid == 2 {
      var rest := s[4 * groups..valid];
      assert InAlphabet(rest[0]) && InAlphabet(rest[1]);
      assert s == body + [rest[0], rest[1], PAD, PAD];
      Canonical1(body, groups, rest[0], rest[1]);
    } else {
      var rest := s[4 * groups..valid];
      assert InAlphabet(rest[0]) && InAlphabet(rest[1]) && InAlphabet(rest[2]);
      assert s == body + [rest[0], rest[1], rest[2], PAD];
      Canonical2(body, groups, rest[0], rest[1], rest[2]);
    }
  }

  /** Text is reproduced by decoding and re-encoding exactly when it is canonical. */
  lemma TextRoundTripIff(s: JsString)
    ensures Decoded(s).Ok? && Encoded(Decoded(s).value) == s <==> Canonical(s)
  {
    if Decoded(s).Ok? {
      BytesRoundTrip(Decoded(s).value);
    }
    if Canonical(s) {
      CanonicalRoundTrip(s);
    }
  }

  // ---------------------------------------------------------------- the standard, character by character

  /** Byte `k`, or 0 behind the end. */
  function ByteOrZero(b: Bytes, k: nat): Byte {
    if k < |b| then b[k] else 0
  }

  /** The figure of section 4 of RFC 4648: which six bits of its group character `k` stands for. */
  function SixBits(b: Bytes, k: nat): int {
    var g := k / 4 * 3;
    match k % 4
    case 0 => ByteOrZero(b, g) / 4
    case 1 => ByteOrZero(b, g) % 4 * 16 + ByteOrZero(b, g + 1) / 16
    case 2 => ByteOrZero(b, g + 1) % 16 * 4 + ByteOrZero(b, g + 2) / 64
    case _ => ByteOrZero(b, g + 2) % 64
  }

  lemma OneTripletCharacters(a: Byte, b: Byte, c: Byte)
    ensures Triplet(a, b, c)
         == [Lookup(a / 4), Lookup(a % 4 * 16 + b / 16), Lookup(b % 16 * 4 + c / 64), Lookup(c % 64)]
  {
    hide Lookup;
    BytesOf(a, b, c);
    var num := Num24(a, b, c);
    SextetsCarry(num);
    SextetsOf(a / 4, a % 4 * 16 + b / 16, b % 16 * 4 + c / 64, c % 64);
    assert FromSextets(a / 4, a % 4 * 16 + b / 16, b % 16 * 4 + c / 64, c % 64) == num;
  }

  lemma {:induction false} TripletCharacters(b: Bytes, groups: nat, k: nat)
    requires |b| == 3 * groups && k < 4 * groups
    ensures 0 <= SixBits(b, k) < 64 && EncodeTriplets(b, groups)[k] == Lookup(SixBits(b, k))
    decreases groups
  {
    hide Lookup, Triplet;
    if k < 4 {
      OneTripletCharacters(b[0], b[1], b[2]);
    } else {
      TripletCharacters(b[3..], groups - 1, k - 4);
      var g := k / 4 * 3;
      assert (k - 4) / 4 * 3 == g - 3 && (k - 4) % 4 == k % 4;
      assert b[3..][g - 3] == b[g] && b[3..][g - 2] == b[g + 1] && b[3..][g - 1] == b[g + 2];
    }
  }

  lemma Tail1Characters(x: Byte)
    ensures Tail1(x) == [Lookup(x / 4), Lookup(x % 4 * 16), 61, 61]
  {
    hide Lookup;
    assert x * 16 % 64 == x % 4 * 16;
  }

  lemma TwelveBits(p: int, q: int, r: int, t: int)
    requires 0 <= q < 4 && 0 <= r < 16 && 0 <= t < 16
    ensures var tmp := (p * 4 + q) * 256 + (r * 16 + t);
            tmp / 1024 == p && tmp / 16 % 64 == q * 16 + r && tmp * 4 % 64 == t * 4
  {
    var tmp, a, low := (p * 4 + q) * 256 + (r * 16 + t), p * 64 + (q * 16 + r), q * 16 + r;
    assert tmp == p * 1024 + (low * 16 + t) && tmp == a * 16 + t && tmp * 4 == a * 64 + t * 4;
    SplitDigits(p, low * 16 + t, 1024);
    SplitDigits(a, t, 16);
    SplitDigits(p, low, 64);
    SplitDigits(a, t * 4, 64);
  }

  lemma Tail2Characters(x: Byte, y: Byte)
    ensures Tail2(x, y) == [Lookup(x / 4), Lookup(x % 4 * 16 + y / 16), Lookup(y % 16 * 4), 61]
  {
    hide Lookup;
    TwelveBits(x / 4, x % 4, y / 16, y % 16);
  }

  lemma TailCharacters(b: Bytes, k: nat)
    requires |b| % 3 != 0 && |b| / 3 * 4 <= k < |b| / 3 * 4 + 4
    ensures var whole := |b| / 3 * 3;
            var tail := if |b| % 3 == 1 then Tail1(b[whole]) else Tail2(b[whole], b[whole + 1]);
            && 0 <= SixBits(b, k) < 64
            && tail[k - |b| / 3 * 4] == if k * 6 < |b| * 8 then Lookup(SixBits(b, k)) else 61
  {
    hide Lookup, Tail1, Tail2;
    var groups := |b| / 3;
    assert k / 4 == groups && k % 4 == k - 4 * groups;
    if |b| % 3 == 1 {
      Tail1Characters(b[3 * groups]);
    } else {
      Tail2Characters(b[3 * groups], b[3 * groups + 1]);
    }
  }

  lemma SameSixBits(front: Bytes, b: Bytes, k: nat)
    requires front <= b && |front| % 3 == 0 && k < |front| / 3 * 4
    ensures SixBits(front, k) == SixBits(b, k)
  {
  }

  /** Character `k` of an encoding: six bits while there is a byte they come from, then "=". */
  lemma EncodedCharacters(b: Bytes, k: nat)
    requires k < |Encoded(b)|
    ensures 0 <= SixBits(b, k) < 64
    ensures Encoded(b)[k] == if k * 6 < |b| * 8 then Lookup(SixBits(b, k)) else 61
  {
    hide EncodeTriplets, Lookup, Triplet, Tail1, Tail2, SixBits;
    var groups := |b| / 3;
    var whole := 3 * groups;
    if k < 4 * groups {
      TripletCharacters(b[..whole], groups, k);
      SameSixBits(b[..whole], b, k);
    } else {
      TailCharacters(b, k);
    }
  }

  // ---------------------------------------------------------------- any text

  /** The character of the standard alphabet that is read alike. */
  function Standard(c: CodeUnit): CodeUnit {
    if c == '-' as int then '+' as int
    else if c == '_' as int then '/' as int
    else if InAlphabet(c) || c == '=' as int then c
    else 'A' as int
  }

  function Standardised(s: JsString): (t: JsString)
    ensures |t| == |s|
  {
    seq(|s|, p requires 0 <= p < |s| => Standard(s[p]))
  }

  lemma SameRest(f: JsString, g: JsString, n: nat)
    requires |f| == |g| && n <= |f| && forall p :: 0 <= p < |f| ==> RevLookup(f[p]) == RevLookup(g[p])
    ensures n + 1 < |f| ==> OneByte(f[n], f[n + 1]) == OneByte(g[n], g[n + 1])
    ensures n + 2 < |f| ==> TwoBytes(f[n], f[n + 1], f[n + 2]) == TwoBytes(g[n], g[n + 1], g[n + 2])
  {
    hide RevLookup;
  }

  lemma {:induction false} SamePad(s: JsString, t: JsString)
    requires |s| == |t| && forall p :: 0 <= p < |s| ==> (s[p] == PAD <==> t[p] == PAD)
    ensures IndexOfPad(s) == IndexOfPad(t)
  {
    if s != [] {
      SamePad(s[1..], t[1..]);
    }
  }

  lemma {:induction false} SameQuads(s: JsString, t: JsString, groups: nat)
    requires |s| == |t| == 4 * groups && forall p :: 0 <= p < |s| ==> RevLookup(s[p]) == RevLookup(t[p])
    ensures DecodeQuads(s, groups) == DecodeQuads(t, groups)
    decreases groups
  {
    hide RevLookup;
    if groups > 0 {
      SameQuads(s[4..], t[4..], groups - 1);
      assert Quad(s[..4]) == Quad(t[..4]) by {
        assert forall p :: 0 <= p < 4 ==> s[..4][p] == s[p] && t[..4][p] == t[p];
      }
    }
  }

  lemma SameDecoding(s: JsString, t: JsString)
    requires |s| == |t|
    requires forall p :: 0 <= p < |s| ==> RevLookup(s[p]) == RevLookup(t[p]) && (s[p] == PAD <==> t[p] == PAD)
    ensures Decoded(s) == Decoded(t)
  {
    hide RevLookup, DecodeQuads, OneByte, TwoBytes, IndexOfPad;
    SamePad(s, t);
    var valid := IndexOfPad(s);
    SameQuads(s[..|s| / 4 * 4], t[..|s| / 4 * 4], |s| / 4);
    SameQuads(s[..valid / 4 * 4], t[..valid / 4 * 4], valid / 4);
    assert |s| % 4 == 0 ==> s[..|s| / 4 * 4] == s && t[..|s| / 4 * 4] == t;
    var f, g := s[..valid], t[..valid];
    assert f[..valid / 4 * 4] == s[..valid / 4 * 4] && g[..valid / 4 * 4] == t[..valid / 4 * 4];
    if valid >= 4 {
      var k := valid / 4 - 1;
      SameQuads(f[..4 * k], g[..4 * k], k);
    }
    SameRest(f, g, valid / 4 * 4);
  }

  /** URL-safe text decodes as its standard form does, and any other character as "A". */
  lemma DecodesAsStandard(s: JsString)
    ensures Decoded(s) == Decoded(Standardised(s))
  {
    SameDecoding(s, Standardised(s));
  }

  /** Which texts are refused: those of other lengths, and those that begin with "=". */
  lemma RefusedIff(s: JsString)
    ensures |s| % 4 != 0 <==> Decoded(s) == Err(LengthNotMultipleOf4)
    ensures |s| % 4 == 0 && s != [] && s[0] == 61 <==> Decoded(s) == Err(NegativeArrayLength)
  {
    hide DecodeQuads, OneByte, TwoBytes;
  }

  lemma FirstPad(body: JsString, tail: JsString, kept: nat)
    requires kept < |tail| && tail[kept] == PAD && AllInAlphabet(body)
    requires forall p :: 0 <= p < kept ==> tail[p] != PAD
    ensures IndexOfPad(body + tail) == |body| + kept
  {
    var s := body + tail;
    assert forall p :: |body| <= p < |body| + kept ==> s[p] == tail[p - |body|];
    assert forall p :: 0 <= p < |body| ==> s[p] == body[p] && InAlphabet(body[p]);
    assert s[|body| + kept] == PAD;
  }

  lemma LostGroup(b: Bytes, groups: nat)
    requires |b| == 3 * groups && groups > 0
    ensures DecodeQuads(EncodeTriplets(b, groups)[..4 * (groups - 1)], groups - 1) == b[..|b| - 3]
  {
    hide EncodeTriplets, DecodeQuads;
    var front, last := b[..3 * (groups - 1)], b[3 * (groups - 1)..];
    assert b == front + last;
    EncodeConcat(front, groups - 1, last, 1);
    TripletsRoundTrip(front, groups - 1);
    assert EncodeTriplets(b, groups)[..4 * (groups - 1)] == EncodeTriplets(front, groups - 1);
  }

  lemma OneByteIs(c0: CodeUnit, c1: CodeUnit)
    ensures OneByte(c0, c1) == (RevLookup(c0) * 4 + RevLookup(c1) / 16) % 256
  {
  }

  lemma TwoBytesAre(c0: CodeUnit, c1: CodeUnit, c2: CodeUnit)
    ensures TwoBytes(c0, c1, c2)
         == [(RevLookup(c0) * 4 + RevLookup(c1) / 16) % 256, (RevLookup(c1) % 16 * 16 + RevLookup(c2) / 4) % 256]
  {
    hide RevLookup;
    var v0, v1, v2 := RevLookup(c0), RevLookup(c1), RevLookup(c2);
    var tmp := v0 * 1024 + v1 * 16 + v2 / 4;
    assert tmp == (v0 * 4 + v1 / 16) * 256 + (v1 % 16 * 16 + v2 / 4);
    SplitDigits(v0 * 4 + v1 / 16, v1 % 16 * 16 + v2 / 4, 256);
  }

  lemma PaddedFront(b: Bytes, more: JsString, junk: JsString)
    requires |b| % 3 == 0 && |more| <= 3 && (forall p :: 0 <= p < |more| ==> more[p] != 61)
    requires (|more| + 1 + |junk|) % 4 == 0
    ensures |Encoded(b)| == 4 * (|b| / 3) && Encoded(b) == EncodeTriplets(b, |b| / 3)
    ensures DecodeQuads(Encoded(b), |b| / 3) == b
    ensures Decoded(Encoded(b) + (more + [61] + junk)) == DecodedBefore(Encoded(b) + more, |b| / 3, |more|)
  {
    hide EncodeTriplets, DecodeQuads, Lookup, InAlphabet, DecodedBefore;
    var groups := |b| / 3;
    var body := Encoded(b);
    assert b == b[..3 * groups] && EncodeTriplets(b, groups) + [] == EncodeTriplets(b, groups) == body;
    TripletsRoundTrip(b, groups);
    var tail := more + [61] + junk;
    FirstPad(body, tail, |more|);
    var s := body + tail;
    assert s[..4 * groups + |more|] == body + more;
    assert IndexOfPad(s) / 4 == groups && IndexOfPad(s) % 4 == |more|;
  }

  /**
   * What stands between whole groups and the first "=": two or three characters add one or two bytes made of their
   * bits, a single one adds nothing, nothing at all costs the last group, and what is behind that "=" does not matter.
   */
  lemma PaddedText(b: Bytes, more: JsString, junk: JsString)
    requires |b| % 3 == 0 && |more| <= 3 && (forall p :: 0 <= p < |more| ==> more[p] != 61) && (b != [] || more != [])
    requires (|more| + 1 + |junk|) % 4 == 0
    ensures Decoded(Encoded(b) + (more + [61] + junk))
         == match |more|
            case 0 => Ok(if b == [] then [] else b[..|b| - 3] + [0, 0])
            case 1 => Ok(b)
            case 2 => Ok(b + [(RevLookup(more[0]) * 4 + RevLookup(more[1]) / 16) % 256])
            case _ => Ok(b + [(RevLookup(more[0]) * 4 + RevLookup(more[1]) / 16) % 256,
                              (RevLookup(more[1]) % 16 * 16 + RevLookup(more[2]) / 4) % 256])
  {
    hide EncodeTriplets, DecodeQuads, RevLookup, OneByte, TwoBytes, Encoded, Decoded;
    var groups := |b| / 3;
    var body := Encoded(b);
    PaddedFront(b, more, junk);
    assert (body + more)[..4 * groups] == body;
    if |more| == 0 && b != [] {
      LostGroup(b, groups);
      assert (body + more)[..4 * (groups - 1)] == EncodeTriplets(b, groups)[..4 * (groups - 1)];
    } else if |more| == 2 {
      OneByteIs(more[0], more[1]);
    } else if |more| == 3 {
      TwoBytesAre(more[0], more[1], more[2]);
    }
  }

  /** "====" after whole groups makes the decoder lose the last group: two zero bytes take its place. */
  lemma PaddedGroupIsLost(b: Bytes)
    requires |b| % 3 == 0 && b != []
    ensures Decoded(Encoded(b) + [PAD, PAD, PAD, PAD]) == Ok(b[..|b| - 3] + [0, 0])
  {
    hide Decoded, Encoded, RevLookup;
    PaddedText(b, [], [PAD, PAD, PAD]);
    assert [] + [61] + [PAD, PAD, PAD] == [PAD, PAD, PAD, PAD];
  }

  lemma SampleTriplet()
    ensures Triplet(102, 111, 111) == [90, 109, 57, 118] && Tail1(98) == [89, 103, 61, 61]
  {
    assert Num24(102, 111, 111) == 0x66_6F6F;
    assert Sextets(0x66_6F6F) == (25, 38, 61, 47);
  }

  lemma OneTriplet(b: Bytes)
    requires |b| == 3
    ensures EncodeTriplets(b, 1) == Triplet(b[0], b[1], b[2])
  {
    assert b[3..] == [];
  }

  /** A test vector of section 10 of RFC 4648: "foob" is "Zm9vYg==". */
  lemma SampleEncodes()
    ensures Encoded([102, 111, 111, 98]) == [90, 109, 57, 118, 89, 103, 61, 61]
  {
    var b: Bytes := [102, 111, 111, 98];
    assert b[..3] == [102, 111, 111];
    SampleTriplet();
    hide Triplet, Tail1, EncodeTriplets;
    OneTriplet(b[..3]);
  }

  // ---------------------------------------------------------------- the loops

  const MAX_CHUNK_LENGTH := 16383

  method EncodeChunk(uint8: Bytes, start: nat, end: nat, ghost groups: nat) returns (output: JsString)
    requires start <= end <= |uint8| && end == start + 3 * groups
    ensures output == EncodeTriplets(uint8[start..end], groups)
  {
    hide Triplet;
    output := [];
    var i := start;
    ghost var done := 0;
    while i < end
      invariant 0 <= done <= groups && i == start + 3 * done
      invariant output == EncodeTriplets(uint8[start..i], done)
      decreases end - i
    {
      var triplet := Triplet(uint8[i], uint8[i + 1], uint8[i + 2]);
      assert uint8[start..i + 3] == uint8[start..i] + uint8[i..i + 3];
      EncodeConcat(uint8[start..i], done, uint8[i..i + 3], 1);
      OneTriplet(uint8[i..i + 3]);
      output := output + triplet;
      i := i + 3;
      done := done + 1;
    }
  }

  lemma EmptyTriplets()
    ensures EncodeTriplets([], 0) == []
  {
  }

  /** `fromByteArray`: chunks of 16383 bytes, then the padded tail. */
  method FromByteArray(uint8: Bytes) returns (s: JsString)
    ensures s == Encoded(uint8)
  {
    hide EncodeTriplets, Tail1, Tail2;
    var len := |uint8|;
    var extraBytes := len % 3;
    var len2 := len - extraBytes;
    s := [];
    var i := 0;
    ghost var total, groups := len / 3, 0;
    EmptyTriplets();
    while i < len2
      invariant groups >= 0 && i == 3 * groups && len2 == 3 * total
      invariant var done := if groups < total then groups else total;
                s == EncodeTriplets(uint8[..3 * done], done)
    {
      ghost var next := if groups + 5461 < total then groups + 5461 else total;
      var end := if i + MAX_CHUNK_LENGTH > len2 then len2 else i + MAX_CHUNK_LENGTH;
      var part := EncodeChunk(uint8, i, end, next - groups);
      assert uint8[..end] == uint8[..i] + uint8[i..end];
      EncodeConcat(uint8[..i], groups, uint8[i..end], next - groups);
      s := s + part;
      i := i + MAX_CHUNK_LENGTH;
      groups := groups + 5461;
    }
    if extraBytes == 1 {
      s := s + Tail1(uint8[len - 1]);
    } else if extraBytes == 2 {
      s := s + Tail2(uint8[len - 2], uint8[len - 1]);
    }
  }

  /** The number of whole groups the main loop of the decoder reads. */
  function Groups(len: int): nat {
    if len <= 0 then 0 else (len + 3) / 4
  }

  lemma EmptyQuads()
    ensures DecodeQuads([], 0) == []
  {
  }

  lemma {:induction false} QuadsConcat(a: JsString, m: nat, b: JsString)
    requires |a| == 4 * m && |b| == 4
    ensures DecodeQuads(a + b, m + 1) == DecodeQuads(a, m) + Quad(b)
    decreases m
  {
    hide Quad;
    if m == 0 {
      assert a + b == b && b[..4] == b && b[4..] == [];
    } else {
      assert (a + b)[..4] == a[..4] && (a + b)[4..] == a[4..] + b;
      QuadsConcat(a[4..], m - 1, b);
    }
  }

  method DecodeGroups(b64: JsString, len: int, arr: array<Byte>) returns (i: nat, curByte: nat)
    requires Groups(len) * 4 <= |b64| && Groups(len) * 3 <= arr.Length
    modifies arr
    ensures i == Groups(len) * 4 && curByte == Groups(len) * 3
    ensures arr[..curByte] == DecodeQuads(b64[..i], Groups(len))
    ensures forall p :: curByte <= p < arr.Length ==> arr[p] == old(arr[p])
  {
    hide Quad, DecodeQuads;
    i, curByte := 0, 0;
    ghost var groups := 0;
    EmptyQuads();
    while i < len
      invariant 0 <= groups <= Groups(len) && i == 4 * groups && curByte == 3 * groups
      invariant arr[..curByte] == DecodeQuads(b64[..i], groups)
      invariant forall p :: curByte <= p < arr.Length ==> arr[p] == old(arr[p])
    {
      var tmp := Quad(b64[i..i + 4]);
      ghost var before := arr[..curByte];
      QuadsConcat(b64[..i], groups, b64[i..i + 4]);
      assert b64[..i + 4] == b64[..i] + b64[i..i + 4];
      arr[curByte] := tmp[0];
      arr[curByte + 1] := tmp[1];
      arr[curByte + 2] := tmp[2];
      assert arr[..curByte + 3] == before + tmp;
      curByte := curByte + 3;
      i := i + 4;
      groups := groups + 1;
    }
  }

  /** The bytes after the groups, by the number of placeholders. */
  function Rest(s: JsString, valid: nat, placeHolders: nat): Bytes
    requires valid <= |s| && (placeHolders == 2 ==> valid >= 2) && (placeHolders == 1 ==> valid >= 3)
  {
    if placeHolders == 2 then [OneByte(s[valid - 2], s[valid - 1])]
    else if placeHolders == 1 then TwoBytes(s[valid - 3], s[valid - 2], s[valid - 1])
    else if placeHolders == 4 then [0, 0]
    else []
  }

  /** `getLens`: the placeholders for a first "=" at `valid`. */
  function PlaceHolders(valid: nat, length: nat): int {
    if valid == length then 0 else 4 - valid % 4
  }

  /** `_byteLength`. */
  function ByteLength(valid: nat, placeHolders: int): int {
    (valid + placeHolders) * 3 / 4 - placeHolders
  }

  /** The same computations as numbers: whole groups before the first "=" and what is left of the next one. */
  lemma LengthsOf(valid: nat, length: nat)
    requires length % 4 == 0 && valid <= length
    ensures var placeHolders := PlaceHolders(valid, length);
            var groups := Groups(if placeHolders > 0 then valid - 4 else valid);
            var q, left := valid / 4, valid % 4;
            && valid == 4 * q + left && (valid == length ==> left == 0 && placeHolders == 0 && groups == q)
            && (valid != length ==> placeHolders == 4 - left)
            && (valid != length && left > 0 ==> groups == q)
            && (valid != length && left == 0 ==> groups == if q == 0 then 0 else q - 1)
            && ByteLength(valid, placeHolders)
               == if valid == length then 3 * q else if left == 0 then 3 * q - 1 else 3 * q + left - 1
  {
    var q, left := valid / 4, valid % 4;
    if valid != length {
      assert (valid + (4 - left)) * 3 == (3 * q + 3) * 4;
      assert (3 * q + 3) * 4 / 4 == 3 * q + 3;
    }
  }

  /** The length computations of the decoder, as the specification sees them. */
  lemma Lengths(s: JsString)
    requires |s| % 4 == 0
    ensures var valid := IndexOfPad(s);
            var placeHolders := PlaceHolders(valid, |s|);
            var size := ByteLength(valid, placeHolders);
            var groups := Groups(if placeHolders > 0 then valid - 4 else valid);
            && 0 <= placeHolders
            && (placeHolders == 2 ==> valid >= 2 && 4 * groups == valid - 2)
            && (placeHolders == 1 ==> valid >= 3 && 4 * groups == valid - 3)
            && 4 * groups <= valid
            && (if size < 0 then Decoded(s) == Err(NegativeArrayLength)
                else
                  && size == 3 * groups + |Rest(s, valid, placeHolders)|
                  && Decoded(s) == Ok(DecodeQuads(s[..4 * groups], groups) + Rest(s, valid, placeHolders)))
  {
    hide DecodeQuads, OneByte, TwoBytes, IndexOfPad, PlaceHolders, ByteLength, Groups;
    var valid := IndexOfPad(s);
    var groups := valid / 4;
    LengthsOf(valid, |s|);
    if valid == |s| {
      assert s[..valid] == s;
      assert DecodeQuads(s, groups) + [] == DecodeQuads(s, groups);
    } else {
      var front := s[..valid];
      assert front[..4 * groups] == s[..4 * groups];
      if valid % 4 == 0 && groups > 0 {
        assert front[..4 * (groups - 1)] == s[..4 * (groups - 1)];
      }
      assert DecodeQuads(s[..4 * groups], groups) + [] == DecodeQuads(s[..4 * groups], groups);
    }
  }

  lemma BadLength(s: JsString)
    requires |s| % 4 != 0
    ensures Decoded(s) == Err(LengthNotMultipleOf4)
  {
  }

  method DecodeRest(b64: JsString, validLen: nat, placeHoldersLen: nat, i: nat, arr: array<Byte>, curByte: nat)
    requires validLen <= |b64| && curByte <= arr.Length
    requires placeHoldersLen == 2 ==> i == validLen - 2
    requires placeHoldersLen == 1 ==> i == validLen - 3
    requires arr.Length == curByte + |Rest(b64, validLen, placeHoldersLen)|
    requires forall p :: curByte <= p < arr.Length ==> arr[p] == 0
    modifies arr
    ensures arr[..curByte] == old(arr[..curByte])
    ensures arr[curByte..] == Rest(b64, validLen, placeHoldersLen)
  {
    hide OneByte, TwoBytes;
    if placeHoldersLen == 2 {
      arr[curByte] := OneByte(b64[i], b64[i + 1]);
    }
    if placeHoldersLen == 1 {
      var two := TwoBytes(b64[i], b64[i + 1], b64[i + 2]);
      arr[curByte] := two[0];
      arr[curByte + 1] := two[1];
    }
  }

  /** The loops of the decoder over a fresh array of the computed length. */
  method Fill(b64: JsString, validLen: nat, placeHoldersLen: nat, size: nat) returns (arr: array<Byte>)
    requires validLen <= |b64|
    requires var groups := Groups(if placeHoldersLen > 0 then validLen - 4 else validLen);
             && (placeHoldersLen == 2 ==> 4 * groups == validLen - 2)
             && (placeHoldersLen == 1 ==> 4 * groups == validLen - 3)
             && 4 * groups <= validLen && size == 3 * groups + |Rest(b64, validLen, placeHoldersLen)|
    ensures fresh(arr)
    ensures var groups := Groups(if placeHoldersLen > 0 then validLen - 4 else validLen);
            arr[..] == DecodeQuads(b64[..4 * groups], groups) + Rest(b64, validLen, placeHoldersLen)
  {
    hide DecodeQuads, OneByte, TwoBytes, Groups, Rest;
    var len: int := if placeHoldersLen > 0 then (validLen as int) - 4 else validLen;
    arr := new Byte[size](_ => 0);
    var i, curByte := DecodeGroups(b64, len, arr);
    ghost var front := arr[..curByte];
    DecodeRest(b64, validLen, placeHoldersLen, i, arr, curByte);
    assert arr[..] == arr[..curByte] + arr[curByte..];
  }

  /** `toByteArray`: lengths from the position of "=", then the groups and the rest into a fresh array. */
  method ToByteArray(b64: JsString) returns (r: Result<array<Byte>, Error>)
    ensures Decoded(b64).Err? ==> r == Err(Decoded(b64).error)
    ensures Decoded(b64).Ok? ==> r.Ok? && fresh(r.value) && r.value[..] == Decoded(b64).value
  {
    hide DecodeQuads, OneByte, TwoBytes, Decoded, IndexOfPad, Groups, PlaceHolders, ByteLength, Rest;
    if |b64| % 4 > 0 {
      BadLength(b64);
      return Err(LengthNotMultipleOf4);
    }
    Lengths(b64);
    var validLen: int := IndexOfPad(b64);
    var placeHoldersLen := PlaceHolders(validLen, |b64|);
    var size := ByteLength(validLen, placeHoldersLen);
    if size < 0 {
      return Err(NegativeArrayLength);
    }
    var arr := Fill(b64, validLen, placeHoldersLen, size);
    r := Ok(arr);
  }
}
