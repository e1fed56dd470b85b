/** A sample string of the standard, which pins the digits, thresholds, biases and constants of the codec. */
module PunycodeSample {
  import opened JsStrings
  import opened Arithmetic
  import opened PunycodeNumbers
  import opened Punycode

  /** One place of a number: digit `d`, and `q'` left for the places after it. */
  lemma Place(q: nat, k: nat, bias: nat, d: nat, q': nat)
    requires Threshold(k, bias) <= d < BASE && q == d + q' * (BASE - Threshold(k, bias))
    ensures VarInt(q, k, bias) == [DigitToBasic(d)] + VarInt(q', k + BASE, bias)
  {
    var t := Threshold(k, bias);
    MulMono(0, q', BASE - t);
    DivModUnique(q - t, BASE - t, q', d - t);
  }

  lemma LastPlace(q: nat, k: nat, bias: nat)
    requires q < Threshold(k, bias)
    ensures VarInt(q, k, bias) == [DigitToBasic(q)]
  {
  }

  lemma Start(delta: nat, points: nat, first: bool, half: nat, share: nat)
    requires points > 0 && half == (if first then delta / 700 else delta / 2)
    requires share * points <= half < (share + 1) * points
    ensures Adapt(delta, points, first) == AdaptLoop(half + share, 0)
  {
    DivAtMost(half, points, share);
  }

  lemma Division(x: nat, k: nat)
    requires x > 455
    ensures AdaptLoop(x, k) == AdaptLoop(x / 35, k + BASE)
  {
  }

  lemma End(x: nat, k: nat, b: nat)
    requires x <= 455 && b * (x + 38) <= BASE * x < (b + 1) * (x + 38)
    ensures AdaptLoop(x, k) == k + b
  {
    DivAtMost(BASE * x, x + 38, b);
  }

  // ---------------------------------------------------------------- biases and numbers

  lemma Biases()
    ensures Adapt(62042, 3, true) == 27
    ensures Adapt(139, 4, false) == 24
    ensures Adapt(16683, 5, false) == 67
    ensures Adapt(34821, 6, false) == 82
    ensures Adapt(14592, 7, false) == 67
    ensures Adapt(42088, 8, false) == 84
  {
    hide Adapt, AdaptLoop;
    Start(62042, 3, true, 88, 29);
    End(117, 0, 27);
    Start(139, 4, false, 69, 17);
    End(86, 0, 24);
    Start(16683, 5, false, 8341, 1668);
    Division(10009, 0);
    End(285, 36, 31);
    Start(34821, 6, false, 17410, 2901);
    Division(20311, 0);
    Division(580, 36);
    End(16, 72, 10);
    Start(14592, 7, false, 7296, 1042);
    Division(8338, 0);
    End(238, 36, 31);
    Start(42088, 8, false, 21044, 2630);
    Division(23674, 0);
    Division(676, 36);
    End(19, 72, 12);
  }

  lemma Delta1()
    ensures VarInt(62042, BASE, 72) == [119, 119, 52, 99]
  {
    hide VarInt;
    Place(62042, 36, 72, 22, 1772);
    Place(1772, 72, 72, 22, 50);
    Place(50, 108, 72, 30, 2);
    LastPlace(2, 144, 72);
  }

  lemma Delta2()
    ensures VarInt(139, BASE, 27) == [53, 101]
  {
    hide VarInt;
    Place(139, 36, 27, 31, 4);
    LastPlace(4, 72, 27);
  }

  lemma Delta3()
    ensures VarInt(16683, BASE, 24) == [49, 56, 48, 101]
  {
    hide VarInt;
    Place(16683, 36, 24, 27, 694);
    Place(694, 72, 24, 34, 66);
    Place(66, 108, 24, 26, 4);
    LastPlace(4, 144, 24);
  }

  lemma Delta4()
    ensures VarInt(34821, BASE, 67) == [53, 55, 53, 97]
  {
    hide VarInt;
    Place(34821, 36, 67, 31, 994);
    Place(994, 72, 67, 33, 31);
    Place(31, 108, 67, 31, 0);
    LastPlace(0, 144, 67);
  }

  lemma Delta5()
    ensures VarInt(14592, BASE, 82) == [54, 53, 108]
  {
    hide VarInt;
    Place(14592, 36, 82, 32, 416);
    Place(416, 72, 82, 31, 11);
    LastPlace(11, 108, 82);
  }

  lemma Delta6()
    ensures VarInt(42088, BASE, 67) == [115, 121, 50, 98]
  {
    hide VarInt;
    Place(42088, 36, 67, 18, 1202);
    Place(1202, 72, 67, 24, 38);
    Place(38, 108, 67, 28, 1);
    LastPlace(1, 144, 67);
  }

  const POINTS: seq<nat> := [51, 24180, 66, 32068, 37329, 20843, 20808, 29983]

  /** The text behind the delimiter from the `k`-th number on. */
  function DigitsFrom(k: nat): (digits: JsString)
    requires k <= 6
    ensures forall p :: 0 <= p < |digits| ==> IsLetterOrDigit(digits[p])
    decreases 6 - k
  {
    if k == 0 then [119, 119, 52, 99] + DigitsFrom(1)
    else if k == 1 then [53, 101] + DigitsFrom(2)
    else if k == 2 then [49, 56, 48, 101] + DigitsFrom(3)
    else if k == 3 then [53, 55, 53, 97] + DigitsFrom(4)
    else if k == 4 then [54, 53, 108] + DigitsFrom(5)
    else if k == 5 then [115, 121, 50, 98] + DigitsFrom(6)
    else []
  }

  // ---------------------------------------------------------------- the decoder from each number on

  lemma NothingLeft(out: seq<nat>, n: nat, i: nat, bias: nat)
    requires n <= MAX_INT && i <= MAX_INT + 1
    ensures DecodeTail([], out, n, i, bias) == Ok(out)
  {
  }

  lemma From6()
    ensures DecodeTail(DigitsFrom(5), [51, 24180, 66, 32068, 20843, 20808, 29983], 32068, 4, 67) == Ok(POINTS)
  {
    hide VarInt, ReadVarInt, Adapt, DecodeTail;
    Biases();
    Delta6();
    NothingLeft(POINTS, 37329, 5, 84);
    DecodeStep(42088, 42092, 5261, 4, DigitsFrom(6), [51, 24180, 66, 32068, 20843, 20808, 29983], 32068, 4, 67);
    assert Splice([51, 24180, 66, 32068, 20843, 20808, 29983], 4, 37329) == POINTS;
  }

  lemma From5()
    ensures DecodeTail(DigitsFrom(4), [51, 24180, 66, 20843, 20808, 29983], 29983, 6, 82) == Ok(POINTS)
  {
    hide VarInt, ReadVarInt, Adapt, DecodeTail;
    Biases();
    Delta5();
    From6();
    DecodeStep(14592, 14598, 2085, 3, DigitsFrom(5), [51, 24180, 66, 20843, 20808, 29983], 29983, 6, 82);
    assert Splice([51, 24180, 66, 20843, 20808, 29983], 3, 32068) == [51, 24180, 66, 32068, 20843, 20808, 29983];
  }

  lemma From4()
    ensures DecodeTail(DigitsFrom(3), [51, 24180, 66, 20843, 20808], 24180, 2, 67) == Ok(POINTS)
  {
    hide VarInt, ReadVarInt, Adapt, DecodeTail;
    Biases();
    Delta4();
    From5();
    DecodeStep(34821, 34823, 5803, 5, DigitsFrom(4), [51, 24180, 66, 20843, 20808], 24180, 2, 67);
    assert Splice([51, 24180, 66, 20843, 20808], 5, 29983) == [51, 24180, 66, 20843, 20808, 29983];
  }

  lemma From3()
    ensures DecodeTail(DigitsFrom(2), [51, 66, 20843, 20808], 20843, 3, 24) == Ok(POINTS)
  {
    hide VarInt, ReadVarInt, Adapt, DecodeTail;
    Biases();
    Delta3();
    From4();
    DecodeStep(16683, 16686, 3337, 1, DigitsFrom(3), [51, 66, 20843, 20808], 20843, 3, 24);
    assert Splice([51, 66, 20843, 20808], 1, 24180) == [51, 24180, 66, 20843, 20808];
  }

  lemma From2()
    ensures DecodeTail(DigitsFrom(1), [51, 66, 20808], 20808, 3, 27) == Ok(POINTS)
  {
    hide VarInt, ReadVarInt, Adapt, DecodeTail;
    Biases();
    Delta2();
    From3();
    DecodeStep(139, 142, 35, 2, DigitsFrom(2), [51, 66, 20808], 20808, 3, 27);
    assert Splice([51, 66, 20808], 2, 20843) == [51, 66, 20843, 20808];
  }

  lemma From1()
    ensures DecodeTail(DigitsFrom(0), [51, 66], 128, 0, 72) == Ok(POINTS)
  {
    hide VarInt, ReadVarInt, Adapt, DecodeTail;
    Biases();
    Delta1();
    From2();
    DecodeStep(62042, 62042, 20680, 2, DigitsFrom(1), [51, 66], 128, 0, 72);
    assert Splice([51, 66], 2, 20808) == [51, 66, 20808];
  }

  /** Sample (L) of section 7.1 of RFC 3492, "3B-ww4c5e180e575a65lsy2b", is decoded to its eight code points. */
  lemma SampleDecodes()
    ensures DecodePoints([51, 66, 45] + DigitsFrom(0)) == Ok(POINTS)
  {
    hide DecodePoints, DecodeTail;
    From1();
    FrameSplit([51, 66], DigitsFrom(0));
    assert [51, 66] + [DELIMITER] == [51, 66, 45];
  }
}
