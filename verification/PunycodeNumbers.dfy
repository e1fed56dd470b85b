/**
 * The number layer of the Punycode codec (RFC 3492, sections 3.3 and 3.4): digits, bias adaptation
 * and generalized variable-length integers with 31-bit overflow guards.
 */
module PunycodeNumbers {
  import opened JsStrings
  import opened Arithmetic

  const MAX_INT := 0x7FFF_FFFF

  const BASE := 36

  const T_MIN := 1

  const T_MAX := 26

  /** The decoder's errors. `NegativeDigit` is where this model stops: see the README. */
  datatype Error = Overflow | NotBasic | InvalidInput | NegativeDigit

  // ---------------------------------------------------------------- digits

  function BasicToDigit(c: CodeUnit): int {
    if c - 48 < 10 then c - 22
    else if c - 65 < 26 then c - 65
    else if c - 97 < 26 then c - 97
    else BASE
  }

  function DigitToBasic(d: int): CodeUnit
    requires 0 <= d < BASE
  {
    d + 22 + (if d < 26 then 75 else 0)
  }

  predicate IsLetterOrDigit(c: CodeUnit) {
    48 <= c <= 57 || 65 <= c <= 90 || 97 <= c <= 122
  }

  lemma DigitsRoundTrip(d: int)
    requires 0 <= d < BASE
    ensures BasicToDigit(DigitToBasic(d)) == d
    ensures IsLetterOrDigit(DigitToBasic(d))
  {
  }

  const LETTERS := "abcdefghijklmnopqrstuvwxyz"

  const DIGITS := "0123456789"

  lemma LetterAt(i: nat)
    requires i < 26
    ensures |LETTERS| == 26 && LETTERS[i] as int == 97 + i
  {
    assert LETTERS[0] == 'a' && LETTERS[12] == 'm' && LETTERS[25] == 'z';
  }

  lemma DecimalAt(i: nat)
    requires i < 10
    ensures |DIGITS| == 10 && DIGITS[i] as int == 48 + i
  {
    assert DIGITS[0] == '0' && DIGITS[9] == '9';
  }

  /** The digits 0 to 35 are written as the 26 small letters and then the ten decimal digits. */
  lemma DigitTable(d: nat)
    requires d < 36
    ensures |LETTERS| == 26 && |DIGITS| == 10
    ensures DigitToBasic(d) == (LETTERS + DIGITS)[d] as int
  {
    if d < 26 {
      LetterAt(d);
    } else {
      DecimalAt(d - 26);
    }
  }

  /**
   * What every character is read as: letters of either case from 0, decimal digits from 26, the characters from 22 to
   * 47 (the hyphen among them) as 0 to 25, and everything from 123 on as 36, which is no digit.
   */
  lemma CharacterTable(i: nat, c: CodeUnit)
    requires i < 26
    ensures BasicToDigit('A' as int + i) == BasicToDigit('a' as int + i) == i
    ensures i < 10 ==> BasicToDigit('0' as int + i) == 26 + i
    ensures BasicToDigit(22 + i) == i && BasicToDigit('-' as int) == 23
    ensures c >= 123 ==> BasicToDigit(c) == 36
    ensures c < 22 || 58 <= c <= 64 || 91 <= c <= 96 <==> BasicToDigit(c) < 0
  {
  }

  function Threshold(k: int, bias: int): (t: int)
    ensures T_MIN <= t <= T_MAX
  {
    if k <= bias then T_MIN else if k >= bias + T_MAX then T_MAX else k - bias
  }

  /** The threshold is the distance of the place from the bias, but at least 1 and at most 26. */
  lemma ThresholdIsClamped(k: int, bias: int)
    ensures 1 <= k - bias <= 26 ==> Threshold(k, bias) == k - bias
    ensures k - bias < 1 ==> Threshold(k, bias) == 1
    ensures k - bias > 26 ==> Threshold(k, bias) == 26
  {
  }

  // ---------------------------------------------------------------- bias adaptation

  function AdaptLoop(delta: nat, k: nat): nat {
    if delta > 455 then AdaptLoop(delta / 35, k + BASE) else k + BASE * delta / (delta + 38)
  }

  function AdaptStart(delta: nat, numPoints: nat, firstTime: bool): nat
    requires numPoints > 0
  {
    var d := if firstTime then delta / 700 else delta / 2;
    DivNat(d, numPoints);
    d + d / numPoints
  }

  function Adapt(delta: nat, numPoints: nat, firstTime: bool): nat
    requires numPoints > 0
  {
    AdaptLoop(AdaptStart(delta, numPoints, firstTime), 0)
  }

  lemma AdaptEnd(delta: nat, k: nat, top: nat)
    requires delta <= 455
    requires 36 * delta < (top + 1) * (delta + 38)
    ensures k <= AdaptLoop(delta, k) <= k + top
  {
    DivAtMost(36 * delta, delta + 38, top);
    DivNat(36 * delta, delta + 38);
  }

  /** One division of the loop, or its exit: bounds travel from the next level to this one. */
  lemma AdaptLevel(delta: nat, k: nat)
    ensures delta <= 455 ==> AdaptLoop(delta, k) <= k + 33
    ensures delta > 455 ==> AdaptLoop(delta, k) == AdaptLoop(delta / 35, k + 36)
  {
    if delta <= 455 {
      AdaptEnd(delta, k, 33);
    }
  }

  /** The bias never exceeds 198 for any 31-bit delta. */
  lemma AdaptBound(delta: nat, numPoints: nat, firstTime: bool)
    requires numPoints > 0 && delta <= MAX_INT
    ensures Adapt(delta, numPoints, firstTime) <= 198
  {
    hide AdaptLoop;
    var d0 := AdaptStart(delta, numPoints, firstTime);
    var half := if firstTime then delta / 700 else delta / 2;
    DivNat(half, numPoints);
    assert d0 <= MAX_INT;
    var d1 := d0 / 35;
    var d2 := d1 / 35;
    var d3 := d2 / 35;
    var d4 := d3 / 35;
    var d5 := d4 / 35;
    assert d5 <= 40;
    AdaptLevel(d0, 0);
    AdaptLevel(d1, 36);
    AdaptLevel(d2, 72);
    AdaptLevel(d3, 108);
    AdaptLevel(d4, 144);
    AdaptEnd(d5, 180, 18);
  }

  function Pow35(n: nat): (p: int)
    ensures p >= 1
  {
    if n == 0 then 1 else 35 * Pow35(n - 1)
  }

  lemma DivTwice(a: nat, b: nat, c: nat)
    requires b > 0 && c > 0
    ensures b * c > 0 && a / b / c == a / (b * c)
  {
    MulMono(1, c, b);
    var q := a / b / c;
    DivIsQuotient(a, b);
    DivNat(a, b);
    DivIsQuotient(a / b, c);
    var r := a % b + b * (a / b % c);
    MulMono(a / b % c, c - 1, b);
    calc {
      a;
      a / b * b + a % b;
      (q * c + a / b % c) * b + a % b;
      q * (b * c) + r;
    }
    DivModUnique(a, b * c, q, r);
  }

  /** The loop in closed form: divide by 35 as often as it takes to get to 455, each time worth 36. */
  lemma {:induction false} AdaptLoopIs(delta: nat, k: nat) returns (j: nat, x: nat)
    ensures x == delta / Pow35(j) <= 455 && (j > 0 ==> delta / Pow35(j - 1) > 455)
    ensures AdaptLoop(delta, k) == k + 36 * j + 36 * x / (x + 38)
    decreases delta
  {
    if delta <= 455 {
      j, x := 0, delta;
    } else {
      var i;
      i, x := AdaptLoopIs(delta / 35, k + 36);
      j := i + 1;
      DivTwice(delta, 35, Pow35(i));
      if i > 0 {
        DivTwice(delta, 35, Pow35(i - 1));
      }
    }
  }

  /**
   * Bias adaptation as section 6.1 of RFC 3492 has it, with its parameters: damp 700, skew 38, base 36, and 455 as the
   * largest delta that is not divided by 35.
   */
  lemma AdaptIsStandard(delta: nat, numPoints: nat, firstTime: bool) returns (start: nat, j: nat, x: nat)
    requires numPoints > 0
    ensures firstTime ==> start == delta / 700 + delta / 700 / numPoints
    ensures !firstTime ==> start == delta / 2 + delta / 2 / numPoints
    ensures x == start / Pow35(j) <= 455 && (j > 0 ==> start / Pow35(j - 1) > 455)
    ensures Adapt(delta, numPoints, firstTime) == 36 * j + 36 * x / (x + 38)
  {
    hide AdaptLoop;
    start := AdaptStart(delta, numPoints, firstTime);
    j, x := AdaptLoopIs(start, 0);
  }

  /** A delta smaller than twice the number of points adds no share per point, so the number does not matter. */
  lemma AdaptIgnoresCount(delta: nat, a: nat, b: nat)
    requires delta / 2 < a && delta / 2 < b
    ensures Adapt(delta, a, false) == Adapt(delta, b, false)
  {
    DivModUnique(delta / 2, a, 0, delta / 2);
    DivModUnique(delta / 2, b, 0, delta / 2);
  }

  method ComputeAdapt(delta: nat, numPoints: nat, firstTime: bool) returns (bias: nat)
    requires numPoints > 0
    ensures bias == Adapt(delta, numPoints, firstTime)
    ensures delta <= MAX_INT ==> bias <= 198
  {
    var k := 0;
    var d := if firstTime then delta / 700 else delta / 2;
    DivNat(d, numPoints);
    d := d + d / numPoints;
    while d > (BASE - T_MIN) * T_MAX / 2
      invariant d >= 0 && k >= 0
      invariant AdaptLoop(d, k) == Adapt(delta, numPoints, firstTime)
      decreases d
    {
      d := d / (BASE - T_MIN);
      k := k + BASE;
    }
    bias := k + (BASE - T_MIN + 1) * d / (d + 38);
    if delta <= MAX_INT {
      AdaptBound(delta, numPoints, firstTime);
    }
  }

  // ---------------------------------------------------------------- generalized variable-length integers

  /** The digits of `q` from the place with threshold index `k` on, as basic code units. */
  function VarInt(q: nat, k: nat, bias: nat): (s: JsString)
    ensures forall p :: 0 <= p < |s| ==> IsLetterOrDigit(s[p])
    ensures |s| > 0
    decreases q
  {
    var t := Threshold(k, bias);
    if q < t then [DigitToBasic(q)]
    else
      DivIsQuotient(q - t, BASE - t);
      DivNat(q - t, BASE - t);
      [DigitToBasic(t + (q - t) % (BASE - t))] + VarInt((q - t) / (BASE - t), k + BASE, bias)
  }

  datatype Read = Done(i: nat, rest: JsString) | Fail(error: Error)

  lemma GuardedSum(i: nat, digit: nat, w: nat)
    requires w >= 1
    ensures digit <= (MAX_INT - i) / w <==> i + digit * w <= MAX_INT
    ensures 0 <= digit * w
  {
    DivAtMost(MAX_INT - i, w, digit);
    MulMono(0, digit, w);
  }

  lemma GuardedWeight(w: nat, b: nat)
    requires 10 <= b <= 35 && w >= 1
    ensures w <= MAX_INT / b <==> w * b <= MAX_INT
    ensures w * b >= 1
  {
  }

  /** Reads one variable-length integer of weight `w` from the front of `input`, adding it to `i`. */
  function ReadVarInt(input: JsString, i: nat, w: nat, k: nat, bias: nat): (r: Read)
    requires 1 <= w <= MAX_INT && i <= MAX_INT + 1
    ensures r.Done? ==> i <= r.i <= MAX_INT && |r.rest| < |input| && r.rest == input[|input| - |r.rest|..]
    decreases |input|
  {
    if input == [] then Fail(InvalidInput)
    else
      var digit := BasicToDigit(input[0]);
      if digit < 0 then Fail(NegativeDigit)
      else if digit >= BASE || digit > (MAX_INT - i) / w then Fail(Overflow)
      else
        GuardedSum(i, digit, w);
        var i' := i + digit * w;
        var t := Threshold(k, bias);
        if digit < t then Done(i', input[1..])
        else if w > MAX_INT / (BASE - t) then Fail(Overflow)
        else
          GuardedWeight(w, BASE - t);
          ReadVarInt(input[1..], i', w * (BASE - t), k + BASE, bias)
  }

  /** Weights reachable at threshold index `k`: 35 is the largest factor of one place. */
  predicate WeightAt(w: nat, k: nat) {
    && 1 <= w <= MAX_INT
    && k >= 36 && k % 36 == 0
    && (k <= 36 ==> w <= 1)
    && (k <= 72 ==> w <= 35)
    && (k <= 108 ==> w <= 1225)
    && (k <= 144 ==> w <= 42875)
    && (k <= 180 ==> w <= 1500625)
  }

  lemma WeightStep(w: nat, k: nat, b: nat)
    requires WeightAt(w, k) && 10 <= b <= 35 && w * b <= MAX_INT
    ensures WeightAt(w * b, k + 36)
  {
    MulMono(10, b, w);
    MulMono(b, 35, w);
  }

  /** The weight guard never fires on a number that fits, because biases stay below 199. */
  lemma WeightGuardIsRedundant(q: nat, w: nat, k: nat, bias: nat)
    requires WeightAt(w, k) && bias <= 198
    requires q >= Threshold(k, bias)
    requires w * (BASE - Threshold(k, bias)) > MAX_INT
    ensures q * w > MAX_INT
  {
    var t := Threshold(k, bias);
    MulMono(36 - t, 35, w);
    assert t >= 18;
    MulMono(t, q, w);
    MulMono(36 - t, t, w);
  }

  /** One place of the reader on a digit that ends the number. */
  lemma ReadLast(d: nat, rest: JsString, i: nat, w: nat, k: nat, bias: nat)
    requires 1 <= w <= MAX_INT && i <= MAX_INT + 1 && d < Threshold(k, bias)
    ensures ReadVarInt([DigitToBasic(d)] + rest, i, w, k, bias)
         == if i + d * w <= MAX_INT then Done(i + d * w, rest) else Fail(Overflow)
  {
    DigitsRoundTrip(d);
    GuardedSum(i, d, w);
    assert ([DigitToBasic(d)] + rest)[1..] == rest;
  }

  /** One place of the reader on a digit that continues the number. */
  lemma ReadMore(d: nat, rest: JsString, i: nat, w: nat, k: nat, bias: nat, sum: nat, weight: nat)
    requires 1 <= w <= MAX_INT && i <= MAX_INT + 1 && Threshold(k, bias) <= d < BASE
    requires sum == i + d * w && weight == w * (BASE - Threshold(k, bias))
    ensures weight >= 1
    ensures ReadVarInt([DigitToBasic(d)] + rest, i, w, k, bias)
         == if sum > MAX_INT || weight > MAX_INT then Fail(Overflow)
            else ReadVarInt(rest, sum, weight, k + BASE, bias)
  {
    DigitsRoundTrip(d);
    GuardedSum(i, d, w);
    GuardedWeight(w, BASE - Threshold(k, bias));
    assert ([DigitToBasic(d)] + rest)[1..] == rest;
  }

  /** The first digit and the remaining quotient carry all of `q`. */
  lemma SplitNumber(q: nat, t: nat, i: nat, w: nat, total: int) returns (sum: nat, weight: nat)
    requires q >= t && T_MIN <= t <= T_MAX && total == i + q * w
    ensures sum == i + (t + (q - t) % (BASE - t)) * w
    ensures weight == w * (BASE - t)
    ensures total == sum + (q - t) / (BASE - t) * weight
    ensures sum <= total
  {
    var b := BASE - t;
    var d, q' := t + (q - t) % b, (q - t) / b;
    DivIsQuotient(q - t, b);
    DivNat(q - t, b);
    MulMono(0, w, b);
    MulMono(0, d, w);
    sum, weight := i + d * w, w * b;
    MulMono(0, q', weight);
    calc {
      q * w;
      (d + q' * b) * w;
      d * w + q' * b * w;
      { assert q' * b * w == q' * (w * b); }
      d * w + q' * (w * b);
    }
  }

  /** `total` is what the number contributes: the reader returns it, or overflows exactly when it is too large. */
  lemma {:induction false} VarIntRoundTrip(q: nat, k: nat, bias: nat, i: nat, w: nat, rest: JsString, total: int)
    requires WeightAt(w, k) && bias <= 198 && i <= MAX_INT + 1
    requires total == i + q * w
    ensures ReadVarInt(VarInt(q, k, bias) + rest, i, w, k, bias)
         == if total <= MAX_INT then MulMono(0, q, w); Done(total, rest) else Fail(Overflow)
    decreases q
  {
    MulMono(0, q, w);
    var t := Threshold(k, bias);
    if q < t {
      ReadLast(q, rest, i, w, k, bias);
    } else {
      var b := BASE - t;
      var d, q' := t + (q - t) % b, (q - t) / b;
      DivNat(q - t, b);
      var sum, weight := SplitNumber(q, t, i, w, total);
      var tail := VarInt(q', k + BASE, bias) + rest;
      assert VarInt(q, k, bias) + rest == [DigitToBasic(d)] + tail;
      ReadMore(d, tail, i, w, k, bias, sum, weight);
      if sum <= MAX_INT {
        if weight > MAX_INT {
          WeightGuardIsRedundant(q, w, k, bias);
        } else {
          WeightStep(w, k, b);
          VarIntRoundTrip(q', k + BASE, bias, sum, weight, rest, total);
        }
      }
    }
  }

  // ---------------------------------------------------------------- the number system of the standard

  /** The value of a digit string in the mixed radix of section 3.3 of RFC 3492. */
  function Weighted(s: JsString, k: nat, bias: nat): int {
    if s == [] then 0 else BasicToDigit(s[0]) + (36 - Threshold(k, bias)) * Weighted(s[1..], k + 36, bias)
  }

  /** Every digit but the last reaches the threshold of its place, and the last does not. */
  predicate SelfDelimiting(s: JsString, k: nat, bias: nat) {
    s != [] && var d, t := BasicToDigit(s[0]), Threshold(k, bias);
               if |s| == 1 then 0 <= d < t else t <= d < 36 && SelfDelimiting(s[1..], k + 36, bias)
  }

  lemma WeightedCons(d: nat, rest: JsString, k: nat, bias: nat)
    requires d < 36
    ensures var s := [DigitToBasic(d)] + rest;
            && Weighted(s, k, bias) == d + (36 - Threshold(k, bias)) * Weighted(rest, k + 36, bias)
            && (rest == [] ==> Weighted(s, k, bias) == d)
            && (d < Threshold(k, bias) && rest == [] ==> SelfDelimiting(s, k, bias))
            && (d >= Threshold(k, bias) && SelfDelimiting(rest, k + 36, bias) ==> SelfDelimiting(s, k, bias))
  {
    DigitsRoundTrip(d);
    assert ([DigitToBasic(d)] + rest)[1..] == rest;
  }

  /** The first digit of a longer number, and what is left for the others. */
  lemma VarIntStep(q: nat, k: nat, bias: nat)
    requires q >= Threshold(k, bias)
    ensures var t := Threshold(k, bias);
            var d, q' := t + (q - t) % (36 - t), (q - t) / (36 - t);
            && t <= d < 36 && 0 <= q' < q && q == d + (36 - t) * q'
            && VarInt(q, k, bias) == [DigitToBasic(d)] + VarInt(q', k + 36, bias)
  {
    var t := Threshold(k, bias);
    DivIsQuotient(q - t, 36 - t);
    DivNat(q - t, 36 - t);
  }

  lemma {:induction false} VarIntValue(q: nat, k: nat, bias: nat)
    ensures Weighted(VarInt(q, k, bias), k, bias) == q && SelfDelimiting(VarInt(q, k, bias), k, bias)
    decreases q
  {
    hide Threshold, Weighted, SelfDelimiting, DigitToBasic;
    var t := Threshold(k, bias);
    if q < t {
      WeightedCons(q, [], k, bias);
      assert [DigitToBasic(q)] + [] == [DigitToBasic(q)];
    } else {
      hide VarInt;
      VarIntStep(q, k, bias);
      var d, q' := t + (q - t) % (36 - t), (q - t) / (36 - t);
      var rest := VarInt(q', k + 36, bias);
      VarIntValue(q', k + 36, bias);
      WeightedCons(d, rest, k, bias);
      assert VarInt(q, k, bias) == [DigitToBasic(d)] + rest;
      assert (36 - t) * Weighted(rest, k + 36, bias) == (36 - t) * q';
    }
  }
}
