/**
 * The UTF-8 codec of the bundled buffer library (RFC 3629): strings to bytes with surrogate repair and an
 * optional byte budget, and bytes to strings with replacement of malformed input.
 */
module Utf8 {
  import opened JsStrings

  predicate IsScalar(cp: int) {
    0 <= cp <= 0xD7FF || 0xE000 <= cp <= 0x10_FFFF
  }

  // ---------------------------------------------------------------- one code point

  const REPLACEMENT: Bytes := [0xEF, 0xBF, 0xBD]

  function EncodeScalar(cp: int): (b: Bytes)
    requires 0 <= cp <= 0x10_FFFF
    ensures 1 <= |b| <= 4
  {
    if cp < 0x80 then [cp]
    else if cp < 0x800 then [cp / 0x40 + 0xC0, cp % 0x40 + 0x80]
    else if cp < 0x1_0000 then [cp / 0x1000 + 0xE0, cp / 0x40 % 0x40 + 0x80, cp % 0x40 + 0x80]
    else [cp / 0x4_0000 + 0xF0, cp / 0x1000 % 0x40 + 0x80, cp / 0x40 % 0x40 + 0x80, cp % 0x40 + 0x80]
  }

  function SequenceLength(first: Byte): (n: int)
    ensures 1 <= n <= 4
  {
    if first > 0xEF then 4 else if first > 0xDF then 3 else if first > 0xBF then 2 else 1
  }

  predicate IsContinuation(b: int) {
    b / 0x40 == 2
  }

  function Value2(b0: int, b1: int): int {
    b0 % 0x20 * 0x40 + b1 % 0x40
  }

  function Value3(b0: int, b1: int, b2: int): int {
    b0 % 0x10 * 0x1000 + b1 % 0x40 * 0x40 + b2 % 0x40
  }

  function Value4(b0: int, b1: int, b2: int, b3: int): int {
    b0 % 0x10 * 0x4_0000 + b1 % 0x40 * 0x1000 + b2 % 0x40 * 0x40 + b3 % 0x40
  }

  /** The code point at the front of `b`, if the decoder's tests accept one there. */
  function DecodeFront(b: Bytes): Option<int>
    requires b != []
  {
    var n := SequenceLength(b[0]);
    if n > |b| then None
    else if n == 1 then
      if b[0] < 0x80 then Some(b[0]) else None
    else if n == 2 then
      var cp := Value2(b[0], b[1]);
      if IsContinuation(b[1]) && cp > 0x7F then Some(cp) else None
    else if n == 3 then
      var cp := Value3(b[0], b[1], b[2]);
      if IsContinuation(b[1]) && IsContinuation(b[2]) && cp > 0x7FF && (cp < 0xD800 || cp > 0xDFFF) then Some(cp)
      else None
    else
      var cp := Value4(b[0], b[1], b[2], b[3]);
      if IsContinuation(b[1]) && IsContinuation(b[2]) && IsContinuation(b[3]) && cp > 0xFFFF && cp < 0x11_0000
      then Some(cp)
      else None
  }

  lemma TailByte(x: int)
    ensures IsContinuation(x % 0x40 + 0x80) && (x % 0x40 + 0x80) % 0x40 == x % 0x40
  {
  }

  lemma ValueOfEncoding2(cp: int)
    requires 0x80 <= cp < 0x800
    ensures 0xBF < cp / 0x40 + 0xC0 <= 0xDF
    ensures Value2(cp / 0x40 + 0xC0, cp % 0x40 + 0x80) == cp
  {
    TailByte(cp);
  }

  lemma ValueOfEncoding3(cp: int)
    requires 0x800 <= cp < 0x1_0000
    ensures 0xDF < cp / 0x1000 + 0xE0 <= 0xEF
    ensures Value3(cp / 0x1000 + 0xE0, cp / 0x40 % 0x40 + 0x80, cp % 0x40 + 0x80) == cp
  {
    TailByte(cp);
    TailByte(cp / 0x40);
    assert cp / 0x40 / 0x40 == cp / 0x1000;
  }

  lemma ValueOfEncoding4(cp: int)
    requires 0x1_0000 <= cp <= 0x10_FFFF
    ensures 0xEF < cp / 0x4_0000 + 0xF0 <= 0xFF
    ensures Value4(cp / 0x4_0000 + 0xF0, cp / 0x1000 % 0x40 + 0x80, cp / 0x40 % 0x40 + 0x80, cp % 0x40 + 0x80) == cp
  {
    TailByte(cp);
    TailByte(cp / 0x40);
    TailByte(cp / 0x1000);
    assert cp / 0x40 / 0x40 == cp / 0x1000;
    assert cp / 0x1000 / 0x40 == cp / 0x4_0000;
  }

  lemma ScalarRoundTrip(cp: int, rest: Bytes)
    requires IsScalar(cp)
    ensures DecodeFront(EncodeScalar(cp) + rest) == Some(cp)
    ensures SequenceLength((EncodeScalar(cp) + rest)[0]) == |EncodeScalar(cp)|
  {
    hide Value2, Value3, Value4, IsContinuation;
    TailByte(cp);
    TailByte(cp / 0x40);
    TailByte(cp / 0x1000);
    if cp >= 0x1_0000 {
      ValueOfEncoding4(cp);
    } else if cp >= 0x800 {
      ValueOfEncoding3(cp);
    } else if cp >= 0x80 {
      ValueOfEncoding2(cp);
    }
  }

  function Payload(byte: int, marker: int): int {
    byte - marker
  }

  function WithTail(high: int, byte: int): int {
    high * 64 + Payload(byte, 0x80)
  }

  /**
   * The table of section 3 of RFC 3629: how many bytes, which ranges they are in, and that the payload bits of all
   * bytes, the first one most significant, make up the code point.
   */
  lemma EncodingTable(cp: int)
    requires 0 <= cp <= 0x10_FFFF
    ensures var b := EncodeScalar(cp);
            if cp <= 0x7F then b == [cp]
            else if cp <= 0x7FF then
              && |b| == 2 && 0xC0 <= b[0] <= 0xDF && 0x80 <= b[1] <= 0xBF
              && cp == WithTail(Payload(b[0], 0xC0), b[1])
            else if cp <= 0xFFFF then
              && |b| == 3 && 0xE0 <= b[0] <= 0xEF && 0x80 <= b[1] <= 0xBF && 0x80 <= b[2] <= 0xBF
              && cp == WithTail(WithTail(Payload(b[0], 0xE0), b[1]), b[2])
            else
              && |b| == 4 && 0xF0 <= b[0] <= 0xF7
              && 0x80 <= b[1] <= 0xBF && 0x80 <= b[2] <= 0xBF && 0x80 <= b[3] <= 0xBF
              && cp == WithTail(WithTail(WithTail(Payload(b[0], 0xF0), b[1]), b[2]), b[3])
  {
    assert cp / 0x1000 == cp / 0x40 / 0x40;
    assert cp / 0x4_0000 == cp / 0x40 / 0x40 / 0x40;
  }

  /** Splitting a sum of six-bit groups gives the groups back. */
  lemma SplitGroup(high: int, low: int)
    requires 0 <= low < 0x40
    ensures (high * 0x40 + low) / 0x40 == high && (high * 0x40 + low) % 0x40 == low
  {
  }

  lemma EncodingOfValue2(b0: int, b1: int)
    requires 0xBF < b0 <= 0xDF && IsContinuation(b1)
    ensures var v := Value2(b0, b1);
            0 <= v < 0x800 && v / 0x40 + 0xC0 == b0 && v % 0x40 + 0x80 == b1
  {
    SplitGroup(b0 % 0x20, b1 % 0x40);
  }

  lemma EncodingOfValue3(b0: int, b1: int, b2: int)
    requires 0xDF < b0 <= 0xEF && IsContinuation(b1) && IsContinuation(b2)
    ensures var v := Value3(b0, b1, b2);
            && 0 <= v < 0x1_0000 && v / 0x1000 + 0xE0 == b0
            && v / 0x40 % 0x40 + 0x80 == b1 && v % 0x40 + 0x80 == b2
  {
    var high := b0 % 0x10 * 0x40 + b1 % 0x40;
    var v := Value3(b0, b1, b2);
    assert v == high * 0x40 + b2 % 0x40;
    SplitGroup(high, b2 % 0x40);
    SplitGroup(b0 % 0x10, b1 % 0x40);
    assert v / 0x1000 == v / 0x40 / 0x40;
  }

  lemma EncodingOfValue4(b0: int, b1: int, b2: int, b3: int)
    requires 0xEF < b0 <= 0xFF && IsContinuation(b1) && IsContinuation(b2) && IsContinuation(b3)
    ensures var v := Value4(b0, b1, b2, b3);
            && 0 <= v && v / 0x4_0000 + 0xF0 == b0 && v / 0x1000 % 0x40 + 0x80 == b1
            && v / 0x40 % 0x40 + 0x80 == b2 && v % 0x40 + 0x80 == b3
  {
    var top := b0 % 0x10 * 0x40 + b1 % 0x40;
    var high := top * 0x40 + b2 % 0x40;
    var v := Value4(b0, b1, b2, b3);
    assert v == high * 0x40 + b3 % 0x40;
    SplitGroup(high, b3 % 0x40);
    SplitGroup(top, b2 % 0x40);
    SplitGroup(b0 % 0x10, b1 % 0x40);
    assert v / 0x1000 == v / 0x40 / 0x40;
    assert v / 0x4_0000 == v / 0x40 / 0x40 / 0x40;
  }

  /** What the decoder accepts is a scalar value, read from exactly its own encoding. */
  lemma FrontIsEncoding(b: Bytes)
    requires b != [] && DecodeFront(b).Some?
    ensures IsScalar(DecodeFront(b).value)
    ensures SequenceLength(b[0]) <= |b|
    ensures b[..SequenceLength(b[0])] == EncodeScalar(DecodeFront(b).value)
  {
    hide Value2, Value3, Value4, IsContinuation;
    var n := SequenceLength(b[0]);
    if n == 2 {
      EncodingOfValue2(b[0], b[1]);
    } else if n == 3 {
      EncodingOfValue3(b[0], b[1], b[2]);
    } else if n == 4 {
      EncodingOfValue4(b[0], b[1], b[2], b[3]);
    }
  }

  // ---------------------------------------------------------------- well-formed UTF-8

  predicate InRange(b: Bytes, p: nat, low: int, high: int) {
    p < |b| && low <= b[p] <= high
  }

  predicate IsTail(b: Bytes, p: nat) {
    InRange(b, p, 0x80, 0xBF)
  }

  /** The four productions of section 4 of RFC 3629: the length of the UTF8-char at the front, or 0. */
  function CharLength(b: Bytes): (n: nat)
    ensures n <= |b|
  {
    if InRange(b, 0, 0x00, 0x7F) then 1
    else if InRange(b, 0, 0xC2, 0xDF) && IsTail(b, 1) then 2
    else if && (|| (InRange(b, 0, 0xE0, 0xE0) && InRange(b, 1, 0xA0, 0xBF))
                || (InRange(b, 0, 0xE1, 0xEC) && IsTail(b, 1))
                || (InRange(b, 0, 0xED, 0xED) && InRange(b, 1, 0x80, 0x9F))
                || (InRange(b, 0, 0xEE, 0xEF) && IsTail(b, 1)))
            && IsTail(b, 2) then 3
    else if && (|| (InRange(b, 0, 0xF0, 0xF0) && InRange(b, 1, 0x90, 0xBF))
                || (InRange(b, 0, 0xF1, 0xF3) && IsTail(b, 1))
                || (InRange(b, 0, 0xF4, 0xF4) && InRange(b, 1, 0x80, 0x8F)))
            && IsTail(b, 2) && IsTail(b, 3) then 4
    else 0
  }

  predicate WellFormed8(b: Bytes) {
    b == [] || (CharLength(b) > 0 && WellFormed8(b[CharLength(b)..]))
  }

  /** The decoder's arithmetic tests accept exactly the byte ranges of the standard. */
  lemma AcceptsTheStandard(b: Bytes)
    requires b != []
    ensures CharLength(b) == if DecodeFront(b).Some? then SequenceLength(b[0]) else 0
  {
  }

  // ---------------------------------------------------------------- strings to bytes

  /** The byte groups written for `s`, `lead` being a lead surrogate still waiting for its trail. */
  function Pieces(s: JsString, lead: Option<CodeUnit>): (r: seq<Bytes>)
    requires lead.Some? ==> IsLead(lead.value)
    ensures forall p :: 0 <= p < |r| ==> |r[p]| > 0
  {
    if s == [] then []
    else
      var c, rest := s[0], s[1..];
      if IsTrail(c) then
        match lead
        case None => [REPLACEMENT] + Pieces(rest, None)
        case Some(l) => [EncodeScalar(Join16(l, c))] + Pieces(rest, None)
      else if IsLead(c) then
        match lead
        case None => if rest == [] then [REPLACEMENT] else Pieces(rest, Some(c))
        case Some(_) => [REPLACEMENT] + Pieces(rest, Some(c))
      else
        (if lead.Some? then [REPLACEMENT] else []) + [EncodeScalar(c)] + Pieces(rest, None)
  }

  /** The pieces that fit the budget, up to the first that does not. */
  function Fitting(pieces: seq<Bytes>, budget: Option<int>): Bytes {
    if pieces == [] then []
    else
      match budget
      case None => pieces[0] + Fitting(pieces[1..], None)
      case Some(units) =>
        if |pieces[0]| > units then [] else pieces[0] + Fitting(pieces[1..], Some(units - |pieces[0]|))
  }

  function BytesOf(s: JsString): Bytes {
    Fitting(Pieces(s, None), None)
  }

  // ---------------------------------------------------------------- bytes to strings

  function UnitsOf(b: Bytes): JsString
    decreases |b|
  {
    if b == [] then []
    else
      match DecodeFront(b)
      case None => [0xFFFD] + UnitsOf(b[1..])
      case Some(cp) =>
        FrontIsEncoding(b);
        Units16(cp) + UnitsOf(b[SequenceLength(b[0])..])
  }

  /** The number of bytes the decoder gives up on. */
  function BadBytes(b: Bytes): nat
    decreases |b|
  {
    if b == [] then 0
    else if DecodeFront(b).None? then 1 + BadBytes(b[1..])
    else
      FrontIsEncoding(b);
      BadBytes(b[SequenceLength(b[0])..])
  }

  // ---------------------------------------------------------------- theorems

  lemma PairUnits(lead: int, trail: int)
    requires IsLead(lead) && IsTrail(trail)
    ensures IsScalar(Join16(lead, trail))
    ensures Units16(Join16(lead, trail)) == [lead, trail]
  {
  }

  lemma ScalarUnits(cp: int)
    requires IsScalar(cp)
    ensures var u := Units16(cp);
            if cp > 0xFFFF then |u| == 2 && IsLead(u[0]) && IsTrail(u[1]) && Join16(u[0], u[1]) == cp
            else u == [cp] && !IsLead(cp) && !IsTrail(cp)
  {
  }

  /** A scalar value in front becomes one piece, whatever follows. */
  lemma PieceOfScalar(cp: int, rest: JsString)
    requires IsScalar(cp)
    ensures Pieces(Units16(cp) + rest, None) == [EncodeScalar(cp)] + Pieces(rest, None)
  {
    hide EncodeScalar, Join16;
    ScalarUnits(cp);
    var s := Units16(cp) + rest;
    if cp > 0xFFFF {
      assert s[1..] == [s[1]] + rest;
      assert s[1..][1..] == rest;
    } else {
      assert s[1..] == rest;
    }
  }

  lemma BytesOfScalar(cp: int, rest: JsString)
    requires IsScalar(cp)
    ensures BytesOf(Units16(cp) + rest) == EncodeScalar(cp) + BytesOf(rest)
  {
    hide EncodeScalar, Pieces;
    PieceOfScalar(cp, rest);
    var pieces := [EncodeScalar(cp)] + Pieces(rest, None);
    assert pieces[1..] == Pieces(rest, None);
  }

  lemma UnitsOfScalar(cp: int, rest: Bytes)
    requires IsScalar(cp)
    ensures UnitsOf(EncodeScalar(cp) + rest) == Units16(cp) + UnitsOf(rest)
  {
    hide EncodeScalar, DecodeFront;
    ScalarRoundTrip(cp, rest);
    var b := EncodeScalar(cp) + rest;
    assert b[SequenceLength(b[0])..] == rest;
  }

  /** The scalar value at the front of a well-formed string. */
  lemma FrontScalar(s: JsString) returns (cp: int, rest: JsString)
    requires WellFormed16(s) && s != []
    ensures IsScalar(cp) && s == Units16(cp) + rest && WellFormed16(rest) && |rest| < |s|
  {
    if IsLead(s[0]) {
      PairUnits(s[0], s[1]);
      cp, rest := Join16(s[0], s[1]), s[2..];
    } else {
      cp, rest := s[0], s[1..];
    }
  }

  /** Every well-formed string survives the way to bytes and back. */
  lemma {:induction false} StringRoundTrip(s: JsString)
    requires WellFormed16(s)
    ensures UnitsOf(BytesOf(s)) == s
    decreases |s|
  {
    if s != [] {
      hide EncodeScalar, DecodeFront, Pieces;
      var cp, rest := FrontScalar(s);
      BytesOfScalar(cp, rest);
      UnitsOfScalar(cp, BytesOf(rest));
      StringRoundTrip(rest);
    }
  }

  lemma WellFormedCons(cp: int, rest: JsString)
    requires IsScalar(cp) && WellFormed16(rest)
    ensures WellFormed16(Units16(cp) + rest)
  {
    ScalarUnits(cp);
    var s := Units16(cp) + rest;
    if cp > 0xFFFF {
      assert s[2..] == rest;
    } else {
      assert s[1..] == rest;
    }
  }

  /** Whatever the bytes, the decoder only produces well-formed UTF-16. */
  lemma {:induction false} UnitsAreWellFormed(b: Bytes)
    ensures WellFormed16(UnitsOf(b))
    decreases |b|
  {
    hide EncodeScalar, DecodeFront;
    if b != [] {
      match DecodeFront(b)
      case None =>
        UnitsAreWellFormed(b[1..]);
        WellFormedCons(0xFFFD, UnitsOf(b[1..]));
        assert Units16(0xFFFD) == [0xFFFD];
      case Some(cp) =>
        FrontIsEncoding(b);
        UnitsAreWellFormed(b[SequenceLength(b[0])..]);
        WellFormedCons(cp, UnitsOf(b[SequenceLength(b[0])..]));
    }
  }

  /** The round trip holds for a string exactly when its surrogates are all paired. */
  lemma StringRoundTripIff(s: JsString)
    ensures UnitsOf(BytesOf(s)) == s <==> WellFormed16(s)
  {
    UnitsAreWellFormed(BytesOf(s));
    if WellFormed16(s) {
      StringRoundTrip(s);
    }
  }

  lemma BytesOfNothing()
    ensures BytesOf([]) == []
  {
  }

  lemma ReplacementIsEncoded()
    ensures EncodeScalar(0xFFFD) == REPLACEMENT && Units16(0xFFFD) == [0xFFFD]
  {
  }

  /** Re-encoding costs two extra bytes for every byte given up, and none otherwise. */
  lemma {:induction false} ReencodedLength(b: Bytes)
    ensures |BytesOf(UnitsOf(b))| == |b| + 2 * BadBytes(b)
    ensures BadBytes(b) == 0 ==> BytesOf(UnitsOf(b)) == b
    decreases |b|
  {
    hide EncodeScalar, DecodeFront, BytesOf;
    if b == [] {
      BytesOfNothing();
    } else {
      match DecodeFront(b)
      case None =>
        ReencodedLength(b[1..]);
        BytesOfScalar(0xFFFD, UnitsOf(b[1..]));
        ReplacementIsEncoded();
      case Some(cp) =>
        FrontIsEncoding(b);
        var n := SequenceLength(b[0]);
        ReencodedLength(b[n..]);
        BytesOfScalar(cp, UnitsOf(b[n..]));
        assert b == b[..n] + b[n..];
    }
  }

  lemma {:induction false} NoBadBytesIff(b: Bytes)
    ensures BadBytes(b) == 0 <==> WellFormed8(b)
    decreases |b|
  {
    hide EncodeScalar, DecodeFront, CharLength;
    if b != [] {
      AcceptsTheStandard(b);
      if DecodeFront(b).Some? {
        FrontIsEncoding(b);
        NoBadBytesIff(b[SequenceLength(b[0])..]);
      }
    }
  }

  /** Decoding and re-encoding gives the bytes back exactly when they were well-formed UTF-8. */
  lemma BytesRoundTripIff(b: Bytes)
    ensures BytesOf(UnitsOf(b)) == b <==> WellFormed8(b)
  {
    ReencodedLength(b);
    NoBadBytesIff(b);
  }

  // ---------------------------------------------------------------- what strings and bytes are made into

  /**
   * What is left of a string: pairs and other code units stay, every unpaired surrogate becomes U+FFFD, except that a
   * final lead surrogate right behind an unpaired one leaves nothing.
   */
  function Repaired(s: JsString): JsString {
    if s == [] then []
    else if IsLead(s[0]) && |s| >= 2 && IsTrail(s[1]) then s[..2] + Repaired(s[2..])
    else if IsLead(s[0]) && |s| == 2 && IsLead(s[1]) then [0xFFFD]
    else if 0xD800 <= s[0] <= 0xDFFF then [0xFFFD] + Repaired(s[1..])
    else [s[0]] + Repaired(s[1..])
  }

  lemma LeadOverLead(l: CodeUnit, rest: JsString)
    requires IsLead(l) && rest != [] && IsLead(rest[0])
    ensures Pieces(rest, Some(l)) == [REPLACEMENT] + Pieces(rest[1..], Some(rest[0]))
  {
    hide EncodeScalar, Join16;
  }

  lemma LeadWaits(rest: JsString)
    requires |rest| > 1 && IsLead(rest[0])
    ensures Pieces(rest, None) == Pieces(rest[1..], Some(rest[0]))
  {
    hide EncodeScalar, Join16;
  }

  lemma NoPieces(l: CodeUnit)
    requires IsLead(l)
    ensures Pieces([], Some(l)) == []
  {
  }

  lemma SecondLead(l: CodeUnit, rest: JsString)
    requires IsLead(l) && rest != [] && IsLead(rest[0])
    ensures |rest| == 1 ==> Pieces(rest, Some(l)) == [REPLACEMENT] + []
    ensures |rest| > 1 ==> Pieces(rest, Some(l)) == [REPLACEMENT] + Pieces(rest, None)
  {
    hide Pieces;
    LeadOverLead(l, rest);
    if |rest| == 1 {
      assert rest[1..] == [];
      NoPieces(rest[0]);
    } else {
      LeadWaits(rest);
    }
  }

  lemma PlainAfterLead(l: CodeUnit, rest: JsString)
    requires IsLead(l) && rest != [] && !IsLead(rest[0]) && !IsTrail(rest[0])
    ensures Pieces(rest, Some(l)) == [REPLACEMENT] + Pieces(rest, None)
  {
    var piece, later := EncodeScalar(rest[0]), Pieces(rest[1..], None);
    assert Pieces(rest, Some(l)) == [REPLACEMENT] + [piece] + later;
    assert Pieces(rest, None) == [] + [piece] + later;
    hide Pieces, EncodeScalar;
    assert [REPLACEMENT] + [piece] + later == [REPLACEMENT] + ([] + [piece] + later);
  }

  /** A lead surrogate that is waiting for its trail. */
  lemma PendingLead(s: JsString)
    requires |s| >= 2 && IsLead(s[0])
    ensures Pieces(s, None) == Pieces(s[1..], Some(s[0]))
    ensures IsTrail(s[1]) ==> Pieces(s, None) == [EncodeScalar(Join16(s[0], s[1]))] + Pieces(s[1..][1..], None)
    ensures IsLead(s[1]) && |s| == 2 ==> Pieces(s, None) == [REPLACEMENT] + []
    ensures !IsTrail(s[1]) && !(IsLead(s[1]) && |s| == 2) ==> Pieces(s, None) == [REPLACEMENT] + Pieces(s[1..], None)
  {
    hide EncodeScalar, Join16;
    var l, rest := s[0], s[1..];
    if !IsTrail(s[1]) {
      if IsLead(s[1]) {
        SecondLead(l, rest);
      } else {
        PlainAfterLead(l, rest);
      }
    }
  }

  lemma NothingFits()
    ensures Fitting([], None) == []
  {
  }

  lemma FirstFits(piece: Bytes, rest: seq<Bytes>)
    ensures Fitting([piece] + rest, None) == piece + Fitting(rest, None)
  {
    assert ([piece] + rest)[1..] == rest;
  }

  /** The bytes of a string begin with those of its first character or of a replacement for it. */
  lemma FrontBytes(s: JsString)
    requires s != []
    ensures if IsLead(s[0]) && |s| >= 2 && IsTrail(s[1]) then
              BytesOf(s) == EncodeScalar(Join16(s[0], s[1])) + BytesOf(s[2..])
            else if IsLead(s[0]) && |s| == 2 && IsLead(s[1]) then BytesOf(s) == [0xEF, 0xBF, 0xBD]
            else if 0xD800 <= s[0] <= 0xDFFF then BytesOf(s) == [0xEF, 0xBF, 0xBD] + BytesOf(s[1..])
            else BytesOf(s) == EncodeScalar(s[0]) + BytesOf(s[1..])
  {
    hide EncodeScalar, Join16, Fitting;
    NothingFits();
    if IsLead(s[0]) && |s| >= 2 {
      PendingLead(s);
      FirstFits(REPLACEMENT, Pieces(s[1..], None));
      FirstFits(REPLACEMENT, []);
      if IsTrail(s[1]) {
        assert s[1..][1..] == s[2..];
        PairUnits(s[0], s[1]);
        FirstFits(EncodeScalar(Join16(s[0], s[1])), Pieces(s[2..], None));
      }
    } else if IsLead(s[0]) {
      assert s[1..] == [] && [REPLACEMENT] + [] == [REPLACEMENT];
      BytesOfNothing();
      FirstFits(REPLACEMENT, []);
    } else if IsTrail(s[0]) {
      FirstFits(REPLACEMENT, Pieces(s[1..], None));
    } else {
      FirstFits(EncodeScalar(s[0]), Pieces(s[1..], None));
      assert [] + [EncodeScalar(s[0])] + Pieces(s[1..], None) == [EncodeScalar(s[0])] + Pieces(s[1..], None);
    }
  }

  lemma EncodedIsWellFormed(cp: int, rest: Bytes)
    requires IsScalar(cp)
    ensures WellFormed8(EncodeScalar(cp) + rest) <==> WellFormed8(rest)
  {
    hide EncodeScalar, DecodeFront, CharLength;
    var b := EncodeScalar(cp) + rest;
    ScalarRoundTrip(cp, rest);
    AcceptsTheStandard(b);
    assert b[CharLength(b)..] == rest;
  }

  lemma NoUnits()
    ensures UnitsOf([]) == [] && WellFormed8([])
  {
  }

  /** For every string, well-formed or not: its bytes are well-formed UTF-8 and decode to the repaired string. */
  lemma {:induction false} BytesAreRepaired(s: JsString)
    ensures WellFormed8(BytesOf(s)) && UnitsOf(BytesOf(s)) == Repaired(s)
    decreases |s|
  {
    hide EncodeScalar, BytesOf, UnitsOf, WellFormed8, Join16;
    ReplacementIsEncoded();
    if s == [] {
      BytesOfNothing();
      NoUnits();
    } else {
      FrontBytes(s);
      if IsLead(s[0]) && |s| >= 2 && IsTrail(s[1]) {
        PairUnits(s[0], s[1]);
        BytesAreRepaired(s[2..]);
        EncodedIsWellFormed(Join16(s[0], s[1]), BytesOf(s[2..]));
        UnitsOfScalar(Join16(s[0], s[1]), BytesOf(s[2..]));
      } else if IsLead(s[0]) && |s| == 2 && IsLead(s[1]) {
        NoUnits();
        EncodedIsWellFormed(0xFFFD, []);
        UnitsOfScalar(0xFFFD, []);
        assert REPLACEMENT + [] == REPLACEMENT;
      } else if 0xD800 <= s[0] <= 0xDFFF {
        BytesAreRepaired(s[1..]);
        EncodedIsWellFormed(0xFFFD, BytesOf(s[1..]));
        UnitsOfScalar(0xFFFD, BytesOf(s[1..]));
      } else {
        BytesAreRepaired(s[1..]);
        EncodedIsWellFormed(s[0], BytesOf(s[1..]));
        UnitsOfScalar(s[0], BytesOf(s[1..]));
      }
    }
  }

  /**
   * What bytes are made into: a well-formed UTF-8 character becomes the code units of the code point it encodes, and a
   * byte that starts none becomes U+FFFD, decoding going on right behind it.
   */
  lemma UnitsMean(b: Bytes)
    requires b != []
    ensures CharLength(b) == 0 ==> UnitsOf(b) == [0xFFFD] + UnitsOf(b[1..])
    ensures CharLength(b) > 0 ==>
              exists cp :: && IsScalar(cp) && EncodeScalar(cp) == b[..CharLength(b)]
                           && UnitsOf(b) == Units16(cp) + UnitsOf(b[CharLength(b)..])
  {
    hide EncodeScalar, DecodeFront, CharLength;
    AcceptsTheStandard(b);
    if DecodeFront(b).Some? {
      FrontIsEncoding(b);
      var cp := DecodeFront(b).value;
      assert UnitsOf(b) == Units16(cp) + UnitsOf(b[SequenceLength(b[0])..]);
    }
  }

  // ---------------------------------------------------------------- byte budgets

  function Concat(pieces: seq<Bytes>): Bytes {
    if pieces == [] then [] else pieces[0] + Concat(pieces[1..])
  }

  /** A budget of `u` bytes keeps the longest run of whole pieces from the front that fits it. */
  lemma {:induction false} FittingIsLongestPrefix(pieces: seq<Bytes>, u: nat) returns (kept: nat)
    requires forall p :: 0 <= p < |pieces| ==> |pieces[p]| > 0
    ensures kept <= |pieces| && Fitting(pieces, Some(u)) == Concat(pieces[..kept]) && |Concat(pieces[..kept])| <= u
    ensures kept < |pieces| ==> |Concat(pieces[..kept])| + |pieces[kept]| > u
    ensures Fitting(pieces, None) == Concat(pieces)
  {
    if pieces == [] {
      kept := 0;
    } else {
      var rest := FittingIsLongestPrefix(pieces[1..], if |pieces[0]| > u then 0 else u - |pieces[0]|);
      kept := if |pieces[0]| > u then 0 else rest + 1;
      assert |pieces[0]| <= u ==> pieces[..kept][1..] == pieces[1..][..rest];
    }
  }

  lemma NegativeBudget(pieces: seq<Bytes>, u: int)
    requires u < 0
    ensures Fitting(pieces, Some(u)) == []
  {
  }

  /** Every piece is the encoding of one scalar value. */
  ghost predicate Characters(pieces: seq<Bytes>) {
    forall p :: 0 <= p < |pieces| ==> exists cp :: IsScalar(cp) && pieces[p] == EncodeScalar(cp)
  }

  lemma OneMoreCharacter(cp: int, rest: seq<Bytes>)
    requires IsScalar(cp) && Characters(rest)
    ensures Characters([EncodeScalar(cp)] + rest)
  {
    hide EncodeScalar;
  }

  lemma {:induction false} PiecesAreCharacters(s: JsString, lead: Option<CodeUnit>)
    requires lead.Some? ==> IsLead(lead.value)
    ensures Characters(Pieces(s, lead))
  {
    hide EncodeScalar, Join16;
    ReplacementIsEncoded();
    if s != [] {
      var c, rest := s[0], s[1..];
      PiecesAreCharacters(rest, None);
      if IsLead(c) {
        PiecesAreCharacters(rest, Some(c));
        OneMoreCharacter(0xFFFD, Pieces(rest, Some(c)));
        OneMoreCharacter(0xFFFD, []);
        assert [REPLACEMENT] + [] == [REPLACEMENT];
      } else if IsTrail(c) {
        if lead.Some? {
          PairUnits(lead.value, c);
          OneMoreCharacter(Join16(lead.value, c), Pieces(rest, None));
        } else {
          OneMoreCharacter(0xFFFD, Pieces(rest, None));
        }
      } else {
        var plain := [EncodeScalar(c)] + Pieces(rest, None);
        OneMoreCharacter(c, Pieces(rest, None));
        OneMoreCharacter(0xFFFD, plain);
        assert [] + [EncodeScalar(c)] + Pieces(rest, None) == plain;
        assert [REPLACEMENT] + [EncodeScalar(c)] + Pieces(rest, None) == [REPLACEMENT] + plain;
      }
    }
  }

  lemma {:induction false} CharactersAreWellFormed(pieces: seq<Bytes>, more: Bytes)
    requires Characters(pieces)
    ensures WellFormed8(Concat(pieces) + more) <==> WellFormed8(more)
  {
    hide EncodeScalar, WellFormed8;
    if pieces == [] {
      assert Concat(pieces) + more == more;
    } else {
      var cp :| IsScalar(cp) && pieces[0] == EncodeScalar(cp);
      var rest := Concat(pieces[1..]);
      assert Concat(pieces) + more == EncodeScalar(cp) + (rest + more);
      EncodedIsWellFormed(cp, rest + more);
      assert forall p :: 0 <= p < |pieces[1..]| ==> pieces[1..][p] == pieces[p + 1];
      CharactersAreWellFormed(pieces[1..], more);
    }
  }

  lemma TooShort(b: Bytes)
    requires b != [] && |b| < SequenceLength(b[0])
    ensures DecodeFront(b) == None
  {
  }

  /** Part of a character is not well-formed. */
  lemma BrokenCharacter(cp: int, n: nat)
    requires IsScalar(cp) && 0 < n < |EncodeScalar(cp)|
    ensures !WellFormed8(EncodeScalar(cp)[..n])
  {
    hide EncodeScalar, DecodeFront, CharLength;
    var b := EncodeScalar(cp);
    ScalarRoundTrip(cp, []);
    assert b + [] == b && b[..n][0] == b[0];
    AcceptsTheStandard(b[..n]);
    TooShort(b[..n]);
  }

  lemma {:induction false} ConcatSplit(pieces: seq<Bytes>, k: nat)
    requires k <= |pieces|
    ensures Concat(pieces) == Concat(pieces[..k]) + Concat(pieces[k..])
  {
    if k == 0 {
      assert pieces[0..] == pieces;
    } else {
      ConcatSplit(pieces[1..], k - 1);
      assert pieces[..k][1..] == pieces[1..][..k - 1] && pieces[1..][k - 1..] == pieces[k..];
    }
  }

  lemma EmptyConcat()
    ensures Concat([]) == []
  {
  }

  lemma FirstPiece(pieces: seq<Bytes>)
    requires pieces != []
    ensures Concat(pieces) == pieces[0] + Concat(pieces[1..])
  {
  }

  lemma LongerIsBroken(pieces: seq<Bytes>, kept: nat, n: nat)
    requires Characters(pieces) && kept <= |pieces| && |Concat(pieces[..kept])| < n <= |Concat(pieces)|
    requires kept < |pieces| ==> n < |Concat(pieces[..kept])| + |pieces[kept]|
    ensures !WellFormed8(Concat(pieces)[..n])
  {
    hide EncodeScalar, WellFormed8, Concat;
    var r, front, m := Concat(pieces[..kept]), pieces[..kept], n - |Concat(pieces[..kept])|;
    ConcatSplit(pieces, kept);
    if kept == |pieces| {
      assert pieces[kept..] == [];
      EmptyConcat();
    } else {
      var cp :| IsScalar(cp) && pieces[kept] == EncodeScalar(cp);
      FirstPiece(pieces[kept..]);
      assert Concat(pieces)[..n] == r + EncodeScalar(cp)[..m];
      BrokenCharacter(cp, m);
      assert Characters(front) by {
        assert forall p :: 0 <= p < |front| ==> front[p] == pieces[p];
      }
      CharactersAreWellFormed(front, EncodeScalar(cp)[..m]);
    }
  }

  /** With a limit of `u` bytes a string is given its longest well-formed beginning of at most `u` bytes. */
  lemma LimitedBytes(s: JsString, u: nat)
    ensures var all, r := BytesOf(s), Fitting(Pieces(s, None), Some(u));
            && |r| <= |all| && r == all[..|r|] && |r| <= u && WellFormed8(r)
            && forall n :: |r| < n <= |all| && n <= u ==> !WellFormed8(all[..n])
  {
    hide EncodeScalar, WellFormed8, Pieces, Concat;
    var pieces := Pieces(s, None);
    PiecesAreCharacters(s, None);
    var kept := FittingIsLongestPrefix(pieces, u);
    ConcatSplit(pieces, kept);
    var all, r, front := BytesOf(s), Concat(pieces[..kept]), pieces[..kept];
    assert Characters(front) by {
      assert forall p :: 0 <= p < |front| ==> front[p] == pieces[p];
    }
    CharactersAreWellFormed(front, []);
    assert r + [] == r && all[..|r|] == r;
    NoUnits();
    forall n | |r| < n <= |all| && n <= u
      ensures !WellFormed8(all[..n])
    {
      LongerIsBroken(pieces, kept, n);
    }
  }
}
