/** The two loops of the UTF-8 codec, proved against the byte and code unit sequences of `Utf8`. */
module Utf8Codec {
  import opened JsStrings
  import opened Utf8

  /** A budget after `n` more bytes; no budget stays no budget. */
  function Spend(units: Option<int>, n: nat): Option<int> {
    match units
    case None => None
    case Some(u) => Some(u - n)
  }

  predicate Overspent(units: Option<int>) {
    units.Some? && units.value < 0
  }

  lemma FittingStep(piece: Bytes, rest: seq<Bytes>, units: Option<int>)
    requires |piece| > 0 && forall p :: 0 <= p < |rest| ==> |rest[p]| > 0
    ensures !Overspent(Spend(units, |piece|)) ==>
              Fitting([piece] + rest, units) == piece + Fitting(rest, Spend(units, |piece|))
    ensures Overspent(Spend(units, |piece|)) ==>
              Fitting([piece] + rest, units) == [] == Fitting(rest, Spend(units, |piece|))
  {
    var pieces := [piece] + rest;
    assert pieces[0] == piece && pieces[1..] == rest;
  }

  /** Three bytes for a surrogate that has no partner, if the budget allows. */
  method PushReplacement(bytes: Bytes, units: Option<int>, ghost rest: seq<Bytes>)
    returns (bytes': Bytes, units': Option<int>)
    requires forall p :: 0 <= p < |rest| ==> |rest[p]| > 0
    ensures bytes' + Fitting(rest, units') == bytes + Fitting([REPLACEMENT] + rest, units)
  {
    FittingStep(REPLACEMENT, rest, units);
    units' := Spend(units, 3);
    bytes' := if Overspent(units') then bytes else bytes + REPLACEMENT;
    hide Fitting;
    assert !Overspent(units') ==>
        bytes + REPLACEMENT + Fitting(rest, units') == bytes + (REPLACEMENT + Fitting(rest, units'));
  }

  lemma NothingFits(units: Option<int>)
    ensures Fitting([], units) == []
  {
  }

  /** `utf8ToBytes`: `limit` bytes at most, 0 standing for no limit. */
  method Utf8ToBytes(s: JsString, limit: int) returns (bytes: Bytes)
    ensures bytes == Fitting(Pieces(s, None), if limit == 0 then None else Some(limit))
  {
    hide EncodeScalar, Fitting;
    var units: Option<int> := if limit == 0 then None else Some(limit);
    ghost var goal := Fitting(Pieces(s, None), units);
    var leadSurrogate: Option<CodeUnit> := None;
    bytes := [];
    assert s[0..] == s;
    for i := 0 to |s|
      invariant leadSurrogate.Some? ==> IsLead(leadSurrogate.value)
      invariant bytes + Fitting(Pieces(s[i..], leadSurrogate), units) == goal
    {
      var codePoint: int := s[i];
      ghost var rest := s[i + 1..];
      assert s[i..][1..] == rest;
      if 0xD7FF < codePoint < 0xE000 {
        if leadSurrogate.None? {
          if codePoint > 0xDBFF || i + 1 == |s| {
            assert Pieces(s[i..], None) == [REPLACEMENT] + Pieces(rest, None);
            bytes, units := PushReplacement(bytes, units, Pieces(rest, None));
            continue;
          }
          leadSurrogate := Some(codePoint);
          continue;
        }
        if codePoint < 0xDC00 {
          bytes, units := PushReplacement(bytes, units, Pieces(rest, Some(codePoint)));
          leadSurrogate := Some(codePoint);
          continue;
        }
        codePoint := (leadSurrogate.value - 0xD800) * 0x400 + (codePoint - 0xDC00) + 0x1_0000;
      } else if leadSurrogate.Some? {
        assert Pieces(s[i..], leadSurrogate) == [REPLACEMENT] + ([EncodeScalar(codePoint)] + Pieces(rest, None));
        bytes, units := PushReplacement(bytes, units, [EncodeScalar(codePoint)] + Pieces(rest, None));
      } else {
        assert Pieces(s[i..], leadSurrogate) == [EncodeScalar(codePoint)] + Pieces(rest, None);
      }
      leadSurrogate := None;
      var piece := EncodeScalar(codePoint);
      FittingStep(piece, Pieces(rest, None), units);
      units := Spend(units, |piece|);
      if Overspent(units) {
        return;
      }
      bytes := bytes + piece;
    }
    NothingFits(units);
    assert s[|s|..] == [];
  }

  const MAX_ARGUMENTS_LENGTH := 0x1000

  /** The final join: chunks of 0x1000 code units, so that surrogate pairs may be cut between chunks. */
  method DecodeCodePointsArray(codePoints: JsString) returns (res: JsString)
    ensures res == codePoints
  {
    if |codePoints| <= MAX_ARGUMENTS_LENGTH {
      return codePoints;
    }
    res := [];
    var i := 0;
    while i < |codePoints|
      invariant 0 <= i
      invariant res == codePoints[..if i < |codePoints| then i else |codePoints|]
    {
      var chunkEnd := i + MAX_ARGUMENTS_LENGTH;
      res := res + codePoints[i..if chunkEnd < |codePoints| then chunkEnd else |codePoints|];
      i := chunkEnd;
    }
  }

  /** One round of the loop: the code units pushed and the index after the bytes consumed. */
  method FrontOf(buf: Bytes, i: nat, end: nat) returns (point: JsString, next: nat)
    requires i < end <= |buf|
    ensures i < next <= end
    ensures UnitsOf(buf[i..end]) == point + UnitsOf(buf[next..end])
  {
    hide EncodeScalar, Value2, Value3, Value4, IsContinuation;
    var firstByte := buf[i];
    var codePoint: Option<int> := None;
    var bytesPerSequence :=
      if firstByte > 0xEF then 4 else if firstByte > 0xDF then 3 else if firstByte > 0xBF then 2 else 1;
    if i + bytesPerSequence <= end {
      match bytesPerSequence {
        case 1 =>
          if firstByte < 0x80 {
            codePoint := Some(firstByte);
          }
        case 2 =>
          var secondByte := buf[i + 1];
          if IsContinuation(secondByte) {
            var tempCodePoint := Value2(firstByte, secondByte);
            if tempCodePoint > 0x7F {
              codePoint := Some(tempCodePoint);
            }
          }
        case 3 =>
          var secondByte, thirdByte := buf[i + 1], buf[i + 2];
          if IsContinuation(secondByte) && IsContinuation(thirdByte) {
            var tempCodePoint := Value3(firstByte, secondByte, thirdByte);
            if tempCodePoint > 0x7FF && (tempCodePoint < 0xD800 || tempCodePoint > 0xDFFF) {
              codePoint := Some(tempCodePoint);
            }
          }
        case _ =>
          var secondByte, thirdByte, fourthByte := buf[i + 1], buf[i + 2], buf[i + 3];
          if IsContinuation(secondByte) && IsContinuation(thirdByte) && IsContinuation(fourthByte) {
            var tempCodePoint := Value4(firstByte, secondByte, thirdByte, fourthByte);
            if tempCodePoint > 0xFFFF && tempCodePoint < 0x11_0000 {
              codePoint := Some(tempCodePoint);
            }
          }
      }
    }
    assert codePoint == DecodeFront(buf[i..end]);
    if codePoint.None? {
      bytesPerSequence := 1;
      point := [0xFFFD];
    } else {
      FrontIsEncoding(buf[i..end]);
      point := Units16(codePoint.value);
    }
    next := i + bytesPerSequence;
    assert buf[i..end][bytesPerSequence..] == buf[next..end];
  }

  /** The loop of `utf8Slice`: it always advances. */
  method DecodeRange(buf: Bytes, start: nat, stop: nat) returns (res: JsString)
    requires start <= stop <= |buf|
    ensures res == UnitsOf(buf[start..stop])
  {
    assert UnitsOf([]) == [];
    hide UnitsOf;
    res := [];
    var i := start;
    while i < stop
      invariant start <= i <= stop
      invariant res + UnitsOf(buf[i..stop]) == UnitsOf(buf[start..stop])
    {
      var point, next := FrontOf(buf, i, stop);
      assert res + point + UnitsOf(buf[next..stop]) == res + (point + UnitsOf(buf[next..stop]));
      res, i := res + point, next;
    }
    assert buf[i..stop] == [];
  }

  /** `utf8Slice` on any bytes and any range: the code units of the slice, nothing for an empty one. */
  method Utf8Slice(buf: Bytes, start: nat, end: nat) returns (s: JsString)
    ensures var stop := if end < |buf| then end else |buf|;
            s == if start <= stop then UnitsOf(buf[start..stop]) else []
  {
    var stop := if end < |buf| then end else |buf|;
    var res := [];
    if start <= stop {
      res := DecodeRange(buf, start, stop);
    }
    s := DecodeCodePointsArray(res);
  }
}
