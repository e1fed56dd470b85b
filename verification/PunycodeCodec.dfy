/**
 * The two public directions of the Punycode codec, as loops over JavaScript strings, and the
 * theorems about them.
 */
module PunycodeCodec {
  import opened JsStrings
  import opened Arithmetic
  import opened PunycodeNumbers
  import opened Punycode

  // ---------------------------------------------------------------- UCS-2

  /** Pairs of surrogates become one code point; a lone surrogate stays a code point of its own. */
  function Ucs2Decoded(s: JsString): (cps: seq<nat>)
    ensures CodePoints(cps)
    ensures |cps| <= |s|
  {
    if s == [] then []
    else if IsLead(s[0]) && |s| >= 2 && IsTrail(s[1]) then [Join16(s[0], s[1])] + Ucs2Decoded(s[2..])
    else [s[0]] + Ucs2Decoded(s[1..])
  }

  function Ucs2Encoded(cps: seq<nat>): JsString {
    if cps == [] then [] else Units16(cps[0]) + Ucs2Encoded(cps[1..])
  }

  lemma EncodedCons(cp: nat, rest: seq<nat>)
    ensures Ucs2Encoded([cp] + rest) == Units16(cp) + Ucs2Encoded(rest)
  {
    assert ([cp] + rest)[1..] == rest;
  }

  lemma JoinedUnits(lead: CodeUnit, trail: CodeUnit)
    requires IsLead(lead) && IsTrail(trail)
    ensures Join16(lead, trail) > 0xFFFF && Units16(Join16(lead, trail)) == [lead, trail]
  {
  }

  lemma {:induction false} Ucs2RoundTrip(s: JsString)
    ensures Ucs2Encoded(Ucs2Decoded(s)) == s
  {
    hide Join16, CodePoints;
    if s == [] {
    } else if IsLead(s[0]) && |s| >= 2 && IsTrail(s[1]) {
      Ucs2RoundTrip(s[2..]);
      JoinedUnits(s[0], s[1]);
      EncodedCons(Join16(s[0], s[1]), Ucs2Decoded(s[2..]));
      assert s == [s[0], s[1]] + s[2..];
    } else {
      Ucs2RoundTrip(s[1..]);
      EncodedCons(s[0], Ucs2Decoded(s[1..]));
    }
  }

  lemma SliceTwice(s: JsString, k: nat, n: nat)
    requires k <= n <= |s|
    ensures s[k..][..n - k] == s[k..n] == s[..n][k..] && s[k..][n - k..] == s[n..]
  {
  }

  lemma Regroup(x: nat, a: seq<nat>, b: seq<nat>)
    ensures [x] + (a + b) == [x] + a + b
  {
  }

  lemma Ucs2Nothing()
    ensures Ucs2Decoded([]) == []
  {
  }

  /** The code point at the head of a non-empty string, and the code units it takes. */
  lemma Ucs2Head(s: JsString)
    requires s != []
    ensures IsLead(s[0]) && |s| >= 2 && IsTrail(s[1]) ==>
              Ucs2Decoded(s) == [Join16(s[0], s[1])] + Ucs2Decoded(s[2..])
    ensures !(IsLead(s[0]) && |s| >= 2 && IsTrail(s[1])) ==> Ucs2Decoded(s) == [s[0]] + Ucs2Decoded(s[1..])
  {
  }

  /** A string may be split anywhere but inside a pair: both parts decode on their own. */
  lemma {:induction false} Ucs2Split(s: JsString, n: nat)
    requires n <= |s|
    requires 0 < n < |s| ==> !(0xD800 <= s[n - 1] <= 0xDBFF && 0xDC00 <= s[n] <= 0xDFFF)
    ensures Ucs2Decoded(s) == Ucs2Decoded(s[..n]) + Ucs2Decoded(s[n..])
    decreases |s|
  {
    hide Ucs2Decoded, CodePoints;
    Ucs2Nothing();
    if n == 0 {
      assert s[0..] == s && s[..0] == [];
    } else if n == |s| {
      assert s[..|s|] == s && s[|s|..] == [];
    } else {
      var k := if IsLead(s[0]) && IsTrail(s[1]) then 2 else 1;
      Ucs2Split(s[k..], n - k);
      Ucs2Head(s);
      Ucs2Head(s[..n]);
      SliceTwice(s, k, n);
      var first: nat := if k == 2 then Join16(s[0], s[1]) else s[0];
      assert Ucs2Decoded(s[..n]) == [first] + Ucs2Decoded(s[k..n]);
      Regroup(first, Ucs2Decoded(s[k..n]), Ucs2Decoded(s[n..]));
    }
  }

  /** A pair of surrogates is the code point it stands for in UTF-16; any other code unit stands for itself. */
  lemma Ucs2Single(i: nat, j: nat, u: CodeUnit)
    requires i < 1024 && j < 1024
    ensures Ucs2Decoded([0xD800 + i, 0xDC00 + j]) == [0x1_0000 + 1024 * i + j]
    ensures Ucs2Decoded([u]) == [u]
    ensures Units16(0x1_0000 + 1024 * i + j) == [0xD800 + i, 0xDC00 + j] && Units16(u) == [u]
  {
    var pair: JsString, one: JsString := [0xD800 + i, 0xDC00 + j], [u];
    assert pair[2..] == [] && one[1..] == [];
    Ucs2Nothing();
  }

  /** Beyond U+10FFFF only the low twenty bits of the offset are written. */
  lemma Units16Wraps(v: nat, k: nat)
    requires v >= 0x1_0000
    ensures Units16(v + k * 0x10_0000) == Units16(v)
  {
    assert (v + k * 0x10_0000 - 0x1_0000) / 0x400 == (v - 0x1_0000) / 0x400 + k * 0x400;
  }

  /** The test and the value the decoder computes by masking and shifting two code units. */
  predicate MasksAsTrail(extra: int) {
    extra / 0x400 == 0xDC00 / 0x400
  }

  function MaskedPair(value: int, extra: int): int {
    value % 0x400 * 0x400 + extra % 0x400 + 0x1_0000
  }

  lemma MasksAreSurrogates(value: CodeUnit, extra: CodeUnit)
    ensures MasksAsTrail(extra) <==> IsTrail(extra)
    ensures IsLead(value) && IsTrail(extra) ==> MaskedPair(value, extra) == Join16(value, extra) > 0
  {
  }

  /** One round of the loop: the code point at `counter` and the position after it. */
  method NextPoint(s: JsString, start: nat) returns (point: nat, counter: nat)
    requires start < |s|
    ensures start < counter <= |s|
    ensures Ucs2Decoded(s[start..]) == [point] + Ucs2Decoded(s[counter..])
  {
    hide Ucs2Decoded, Join16, MasksAsTrail, MaskedPair;
    Ucs2Head(s[start..]);
    counter := start;
    var value: CodeUnit := s[counter];
    counter := counter + 1;
    assert s[start..][1..] == s[start + 1..];
    point := value;
    if 0xD800 <= value <= 0xDBFF && counter < |s| {
      var extra: CodeUnit := s[counter];
      MasksAreSurrogates(value, extra);
      counter := counter + 1;
      if MasksAsTrail(extra) {
        assert s[start..][2..] == s[start + 2..];
        point := MaskedPair(value, extra);
      } else {
        counter := counter - 1;
      }
    }
  }

  method Ucs2Decode(s: JsString) returns (output: seq<nat>)
    ensures output == Ucs2Decoded(s)
  {
    output := [];
    var counter := 0;
    assert s[0..] == s;
    while counter < |s|
      invariant 0 <= counter <= |s|
      invariant output + Ucs2Decoded(s[counter..]) == Ucs2Decoded(s)
    {
      hide Ucs2Decoded;
      var point;
      point, counter := NextPoint(s, counter);
      output := output + [point];
    }
  }

  method Ucs2Encode(cps: seq<nat>) returns (output: JsString)
    ensures output == Ucs2Encoded(cps)
  {
    output := [];
    var length := |cps|;
    assert cps[length..] == [];
    while length > 0
      invariant 0 <= length <= |cps|
      invariant output == Ucs2Encoded(cps[length..])
    {
      length := length - 1;
      assert cps[length..][1..] == cps[length + 1..];
      output := Units16(cps[length]) + output;
    }
    assert cps[0..] == cps;
  }

  // ---------------------------------------------------------------- encode

  function Encoded(input: JsString): Result<JsString, Error> {
    EncodePoints(Ucs2Decoded(input))
  }

  method EmitDelta(output: JsString, delta: nat, bias: nat) returns (output': JsString)
    ensures output' == output + VarInt(delta, BASE, bias)
  {
    output' := output;
    var q, k := delta, BASE;
    var t := Threshold(k, bias);
    while q >= t
      invariant q >= 0 && k >= 0 && t == Threshold(k, bias)
      invariant output' + VarInt(q, k, bias) == output + VarInt(delta, BASE, bias)
      decreases q
    {
      var qMinusT, baseMinusT := q - t, BASE - t;
      DivIsQuotient(qMinusT, baseMinusT);
      DivNat(qMinusT, baseMinusT);
      output' := output' + [DigitToBasic(t + qMinusT % baseMinusT)];
      q := qMinusT / baseMinusT;
      k := k + BASE;
      t := Threshold(k, bias);
    }
    output' := output' + [DigitToBasic(q)];
  }

  /** Wrapping around to the next value is one more state increment. */
  lemma NextValueIndex(cps: seq<nat>, n: nat, nd: nat)
    requires nd <= n
    ensures Built(cps, n, |cps|) == Built(cps, n + 1, 0)
    ensures IndexAt(cps, n + 1, 0, nd) == IndexAt(cps, n, |cps|, nd) + 1
  {
    hide Below;
    BuiltNextValue(cps, n);
    assert cps[..|cps|] == cps && cps[..0] == [];
    BelowEmpty(n + 2);
    var points := |Built(cps, n, |cps|)| + 1;
    assert (n + 1 - nd) * points == (n - nd) * points + points;
  }

  /** The next insertion is at least as far away as the state increments counted so far. */
  lemma {:induction false} NextDelta(cps: seq<nat>, n: nat, j: nat, nd: nat, id: nat)
    requires j <= |cps| && Behind(cps, n, j, nd, id)
    ensures Walk(cps, n, j, nd, id) != [] ==> Walk(cps, n, j, nd, id)[0].delta >= IndexAt(cps, n, j, nd) - id
    decreases MAX_CODE_POINT + 1 - n, |cps| - j
  {
    hide Below;
    if n > MAX_CODE_POINT {
    } else if j == |cps| {
      NextValueIndex(cps, n, nd);
      NextDelta(cps, n + 1, 0, nd, id);
    } else if cps[j] != n {
      BuiltSkip(cps, n, j);
      NextDelta(cps, n, j + 1, nd, id);
    }
  }

  /** The walk is over exactly when every code point is in place. */
  lemma {:induction false} WalkEnds(cps: seq<nat>, n: nat, j: nat, nd: nat, id: nat)
    requires j <= |cps| && Behind(cps, n, j, nd, id) && CodePoints(cps) && n <= MAX_CODE_POINT + 1
    ensures Walk(cps, n, j, nd, id) == [] <==> |Built(cps, n, j)| == |cps|
    decreases MAX_CODE_POINT + 1 - n, |cps| - j
  {
    hide Below, IndexAt;
    if n > MAX_CODE_POINT {
      BelowEverything(cps[..j], n + 1);
      BelowEverything(cps[j..], n);
    } else if j == |cps| {
      BuiltNextValue(cps, n);
      WalkEnds(cps, n + 1, 0, nd, id);
    } else if cps[j] != n {
      BuiltSkip(cps, n, j);
      WalkEnds(cps, n, j + 1, nd, id);
    } else {
      BuiltInsert(cps, n, j);
    }
  }

  /** The search for the next larger value: the least one from `n` on. */
  method NextValue(cps: seq<nat>, n: nat) returns (m: nat)
    requires CodePoints(cps) && |Below(cps, n)| < |cps|
    ensures n <= m <= MAX_CODE_POINT && m in cps
    ensures forall p :: 0 <= p < |cps| ==> cps[p] < n || m <= cps[p]
  {
    BelowEverything(cps, n);
    m := MAX_INT;
    for j := 0 to |cps|
      invariant forall p :: 0 <= p < j ==> cps[p] < n || m <= cps[p]
      invariant m == MAX_INT || (n <= m && m in cps)
    {
      if cps[j] >= n && cps[j] < m {
        m := cps[j];
      }
    }
  }

  /** Everything emitted so far plus what is still to come is the complete output. */
  ghost predicate Emitted(cps: seq<nat>, output: JsString, rest: seq<Insertion>, bias: nat, first: bool) {
    var basic := Below(cps, INITIAL_N);
    && output + Emit(rest, bias, first)
       == basic + (if basic == [] then [] else [DELIMITER]) + Emit(AllInsertions(cps), INITIAL_BIAS, true)
    && (DeltasFit(AllInsertions(cps)) <==> DeltasFit(rest))
  }

  /** The encoder between two code points: state <n, j>, with the counters the loop keeps. */
  ghost predicate Encoding(cps: seq<nat>, n: nat, j: nat, nd: nat, id: nat, delta: int, handled: nat)
    requires j <= |cps|
  {
    && n <= MAX_CODE_POINT + 1
    && Behind(cps, n, j, nd, id)
    && delta == IndexAt(cps, n, j, nd) - id
    && handled == |Built(cps, n, j)|
  }

  lemma EmittedStep(cps: seq<nat>, output: JsString, head: Insertion, rest: seq<Insertion>, bias: nat, first: bool)
    requires Emitted(cps, output, [head] + rest, bias, first) && head.delta <= MAX_INT
    ensures Emitted(cps, output + VarInt(head.delta, BASE, bias), rest,
                    Adapt(head.delta, head.present + 1, first), false)
  {
    hide Emit, VarInt, Adapt, Below, AllInsertions;
    EmitCons(head, rest, bias, first);
    FirstAndRest(head, rest);
  }

  /** A counted delta beyond 31 bits means that the next insertion does not fit. */
  lemma OverflowIsReal(cps: seq<nat>, n: nat, j: nat, nd: nat, id: nat, delta: int, handled: nat)
    requires j <= |cps| && CodePoints(cps) && Encoding(cps, n, j, nd, id, delta, handled)
    requires handled < |cps| && delta > MAX_INT
    ensures !DeltasFit(Walk(cps, n, j, nd, id))
  {
    hide Walk, Below, IndexAt;
    NextDelta(cps, n, j, nd, id);
    WalkEnds(cps, n, j, nd, id);
    assert Walk(cps, n, j, nd, id)[0].delta > MAX_INT;
  }

  /** The jump from `n` to the next value that occurs. */
  lemma Jump(cps: seq<nat>, n: nat, m: nat, nd: nat, id: nat, delta: int, handled: nat)
    requires Encoding(cps, n, 0, nd, id, delta, handled) && n <= m <= MAX_CODE_POINT
    requires forall p :: 0 <= p < |cps| ==> cps[p] < n || m <= cps[p]
    ensures Encoding(cps, m, 0, nd, id, delta + (m - n) * (handled + 1), handled)
    ensures Walk(cps, n, 0, nd, id) == Walk(cps, m, 0, nd, id)
  {
    hide Walk, Below;
    WalkSkipValues(cps, n, m, nd, id);
    assert cps[..0] == [];
    BelowEmpty(n + 1);
    BelowEmpty(m + 1);
    assert (m - nd) * (handled + 1) == (n - nd) * (handled + 1) + (m - n) * (handled + 1);
  }

  lemma PassSkip(cps: seq<nat>, n: nat, j: nat, nd: nat, id: nat, delta: int, handled: nat)
    requires j < |cps| && cps[j] != n && Encoding(cps, n, j, nd, id, delta, handled) && n <= MAX_CODE_POINT
    ensures Encoding(cps, n, j + 1, nd, id, if cps[j] < n then delta + 1 else delta, handled)
    ensures Walk(cps, n, j, nd, id) == Walk(cps, n, j + 1, nd, id)
  {
    hide Below;
    BuiltSkip(cps, n, j);
  }

  lemma PassInsert(cps: seq<nat>, n: nat, j: nat, nd: nat, id: nat, delta: int, handled: nat) returns (pos: nat)
    requires j < |cps| && cps[j] == n && Encoding(cps, n, j, nd, id, delta, handled) && n <= MAX_CODE_POINT
    ensures delta >= 0 && handled < |cps| && pos == |Below(cps[..j], n + 1)| + 1
    ensures Encoding(cps, n, j + 1, n, pos, 0, handled + 1)
    ensures Walk(cps, n, j, nd, id) == [Insertion(delta, delta + id, handled)] + Walk(cps, n, j + 1, n, pos)
  {
    hide Below;
    BuiltInsert(cps, n, j);
    IndexIsAhead(cps, n, j, nd, id);
    pos := |Below(cps[..j], n + 1)| + 1;
  }

  lemma StartEncoding(cps: seq<nat>)
    ensures Encoding(cps, INITIAL_N, 0, INITIAL_N, 0, 0, |Below(cps, INITIAL_N)|)
    ensures var basic := Below(cps, INITIAL_N);
            Emitted(cps, basic + (if basic == [] then [] else [DELIMITER]), AllInsertions(cps), INITIAL_BIAS, true)
  {
    hide Walk, Emit, Below;
    assert cps[..0] == [] && cps[0..] == cps;
    BelowEmpty(INITIAL_N + 1);
  }

  lemma ValueRemains(cps: seq<nat>, n: nat, nd: nat, id: nat, delta: int, handled: nat)
    requires Encoding(cps, n, 0, nd, id, delta, handled) && handled < |cps| && CodePoints(cps)
    ensures n <= MAX_CODE_POINT && |Below(cps, n)| < |cps|
  {
    hide Walk, Below;
    assert cps[..0] == [] && cps[0..] == cps;
    BelowEmpty(n + 1);
    BelowEverything(cps, n);
  }

  lemma FinishEncoding(cps: seq<nat>, output: JsString, n: nat, nd: nat, id: nat, delta: int, bias: nat, first: bool)
    requires CodePoints(cps) && Encoding(cps, n, 0, nd, id, delta, |cps|)
    requires Emitted(cps, output, Walk(cps, n, 0, nd, id), bias, first)
    ensures EncodePoints(cps) == Ok(output)
  {
    hide Walk, Below;
    WalkEnds(cps, n, 0, nd, id);
    assert output + Emit([], bias, first) == output;
  }

  method BasicPoints(cps: seq<nat>) returns (output: JsString)
    ensures output == Below(cps, INITIAL_N)
  {
    output := [];
    for j := 0 to |cps|
      invariant output == Below(cps[..j], INITIAL_N)
    {
      PrefixStep(cps, j, INITIAL_N);
      if cps[j] < 0x80 {
        output := output + [cps[j]];
      }
    }
    assert cps[..|cps|] == cps;
  }

  /**
   * The encoder adapts the bias with the number of points at the start of the pass, the decoder with the current one.
   * They agree: after the first insertion of a pass the delta counts only smaller code points of the input.
   */
  lemma StaleCountIsHarmless(cps: seq<nat>, n: nat, j: nat, delta: nat, before: nat, handled: nat, first: bool)
    requires j <= |cps| && before == |Below(cps, n)| && before <= handled
    requires handled > before ==> delta <= |Below(cps[..j], n)| && !first
    ensures Adapt(delta, before + 1, first) == Adapt(delta, handled + 1, first)
  {
    hide Below, Adapt;
    BelowConcat(cps[..j], cps[j..], n);
    assert cps[..j] + cps[j..] == cps;
    if handled > before {
      AdaptIgnoresCount(delta, before + 1, handled + 1);
    }
  }

  /** At the start of a pass everything below `n` is in place. */
  lemma HandledAtStart(cps: seq<nat>, n: nat, nd: nat, id: nat, delta: int, handled: nat)
    requires Encoding(cps, n, 0, nd, id, delta, handled)
    ensures handled == |Below(cps, n)|
  {
    hide Below;
    BelowEmpty(n + 1);
    assert cps[..0] == [] && cps[0..] == cps;
  }

  /**
   * One pass over the input for the value `n`; `ok` is false when a counter left the 31-bit range. The count used for
   * bias adaptation is the one computed before the pass.
   */
  method EncodePass(cps: seq<nat>, n: nat, output0: JsString, delta0: int, bias0: nat, handled0: nat,
                    handledPlusOne: nat, basicLength: nat, ghost nd0: nat, ghost id0: nat)
    returns (ok: bool, output: JsString, delta: int, bias: nat, handled: nat, ghost nd: nat, ghost id: nat)
    requires CodePoints(cps) && |cps| <= MAX_INT && n <= MAX_CODE_POINT
    requires basicLength <= handled0 < |cps| && delta0 <= MAX_INT && handledPlusOne == handled0 + 1
    requires Encoding(cps, n, 0, nd0, id0, delta0, handled0)
    requires Emitted(cps, output0, Walk(cps, n, 0, nd0, id0), bias0, handled0 == basicLength)
    ensures !ok ==> !DeltasFit(AllInsertions(cps))
    ensures ok ==> basicLength <= handled <= |cps| && Encoding(cps, n, |cps|, nd, id, delta, handled)
    ensures ok ==> Emitted(cps, output, Walk(cps, n, |cps|, nd, id), bias, handled == basicLength)
  {
    hide Walk, Emit, Below, IndexAt, VarInt, Adapt, DeltasFit, Built, Behind;
    HandledAtStart(cps, n, nd0, id0, delta0, handled0);
    output, delta, bias, handled, nd, id := output0, delta0, bias0, handled0, nd0, id0;
    for j := 0 to |cps|
      invariant delta <= MAX_INT
      invariant basicLength <= handled0 <= handled <= |cps|
      invariant handled > handled0 ==> delta <= |Below(cps[..j], n)|
      invariant Encoding(cps, n, j, nd, id, delta, handled)
      invariant Emitted(cps, output, Walk(cps, n, j, nd, id), bias, handled == basicLength)
    {
      PrefixStep(cps, j, n);
      if cps[j] != n {
        PassSkip(cps, n, j, nd, id, delta, handled);
      }
      if cps[j] < n {
        delta := delta + 1;
        if delta > MAX_INT {
          OverflowIsReal(cps, n, j + 1, nd, id, delta, handled);
          ok := false;
          return;
        }
      }
      if cps[j] == n {
        ghost var pos := PassInsert(cps, n, j, nd, id, delta, handled);
        EmittedStep(cps, output, Insertion(delta, delta + id, handled), Walk(cps, n, j + 1, n, pos), bias,
                    handled == basicLength);
        StaleCountIsHarmless(cps, n, j, delta, handled0, handled, handled == basicLength);
        output := EmitDelta(output, delta, bias);
        bias := ComputeAdapt(delta, handledPlusOne, handled == basicLength);
        nd, id := n, pos;
        delta := 0;
        handled := handled + 1;
      }
    }
    ok := true;
  }

  lemma WalkWraps(cps: seq<nat>, n: nat, nd: nat, id: nat, delta: int, handled: nat)
    requires Encoding(cps, n, |cps|, nd, id, delta, handled) && n <= MAX_CODE_POINT
    ensures Encoding(cps, n + 1, 0, nd, id, delta + 1, handled)
    ensures Walk(cps, n, |cps|, nd, id) == Walk(cps, n + 1, 0, nd, id)
  {
    hide Below, IndexAt;
    BuiltNextValue(cps, n);
    NextValueIndex(cps, n, nd);
  }

  method EncodeCodePoints(cps: seq<nat>) returns (r: Result<JsString, Error>)
    requires CodePoints(cps)
    requires |cps| <= MAX_INT
    ensures r == EncodePoints(cps)
  {
    hide Walk, Emit, Below, IndexAt, DeltasFit, Built, Behind;
    var n: nat, delta: int, bias: nat := INITIAL_N, 0, INITIAL_BIAS;
    var output := BasicPoints(cps);
    var basicLength := |output|;
    var handled := basicLength;
    StartEncoding(cps);
    if basicLength > 0 {
      output := output + [DELIMITER];
    }
    ghost var nd: nat, id: nat := INITIAL_N, 0;
    while handled < |cps|
      invariant basicLength == |Below(cps, INITIAL_N)| <= handled <= |cps|
      invariant Encoding(cps, n, 0, nd, id, delta, handled)
      invariant Emitted(cps, output, Walk(cps, n, 0, nd, id), bias, handled == basicLength)
      decreases MAX_CODE_POINT + 1 - n
    {
      ValueRemains(cps, n, nd, id, delta, handled);
      var m := NextValue(cps, n);
      Jump(cps, n, m, nd, id, delta, handled);
      var handledPlusOne := handled + 1;
      DivAtMost(MAX_INT - delta, handledPlusOne, m - n);
      var overflow := m - n > (MAX_INT - delta) / handledPlusOne;
      delta := delta + (m - n) * handledPlusOne;
      n := m;
      if overflow {
        OverflowIsReal(cps, n, 0, nd, id, delta, handled);
        return Err(Overflow);
      }
      var ok;
      ok, output, delta, bias, handled, nd, id :=
        EncodePass(cps, n, output, delta, bias, handled, handledPlusOne, basicLength, nd, id);
      if !ok {
        return Err(Overflow);
      }
      WalkWraps(cps, n, nd, id, delta, handled);
      delta := delta + 1;
      n := n + 1;
    }
    FinishEncoding(cps, output, n, nd, id, delta, bias, handled == basicLength);
    r := Ok(output);
  }

  /** `encode`: code points first, then the delta coder. Only strings beyond 2^31 - 1 units are left out. */
  method Encode(input: JsString) returns (r: Result<JsString, Error>)
    requires |input| <= MAX_INT
    ensures r == Encoded(input)
  {
    var cps := Ucs2Decode(input);
    r := EncodeCodePoints(cps);
  }

  // ---------------------------------------------------------------- decode

  function Decoded(input: JsString): Result<JsString, Error> {
    match DecodePoints(input)
    case Ok(cps) => Ok(Ucs2Encoded(cps))
    case Err(e) => Err(e)
  }

  /** What one character does to the reader, guard by guard, in numbers rather than quotients. */
  lemma ReadOne(input: JsString, i: nat, w: nat, k: nat, bias: nat)
    requires 1 <= w <= MAX_INT && i <= MAX_INT + 1
    ensures var r := ReadVarInt(input, i, w, k, bias);
            if input == [] then r == Fail(InvalidInput)
            else
              var digit, t := BasicToDigit(input[0]), Threshold(k, bias);
              if digit < 0 then r == Fail(NegativeDigit)
              else if digit >= 36 || i + digit * w > 2147483647 then r == Fail(Overflow)
              else
                && 0 <= i + digit * w
                && if digit < t then r == Done(i + digit * w, input[1..])
                   else if w * (36 - t) > 2147483647 then r == Fail(Overflow)
                   else
                     && 1 <= w * (36 - t)
                     && r == ReadVarInt(input[1..], i + digit * w, w * (36 - t), k + 36, bias)
  {
    if input != [] {
      var digit := BasicToDigit(input[0]);
      if 0 <= digit {
        GuardedSum(i, digit, w);
        GuardedWeight(w, BASE - Threshold(k, bias));
      }
    }
  }

  /** The inner loop of the decoder, with its three guards; it returns the new `i` and the next index. */
  method ReadDelta(input: JsString, start: nat, oldi: nat, bias: nat) returns (r: Read, index: nat)
    requires start <= |input| && oldi <= MAX_INT + 1
    ensures r == ReadVarInt(input[start..], oldi, 1, BASE, bias)
    ensures r.Done? ==> start < index <= |input| && r.rest == input[index..]
  {
    hide ReadVarInt, BasicToDigit, Threshold;
    index := start;
    var i: nat, w: nat, k: nat := oldi, 1, BASE;
    while true
      invariant start <= index <= |input| && i <= MAX_INT + 1 && 1 <= w <= MAX_INT
      invariant ReadVarInt(input[index..], i, w, k, bias) == ReadVarInt(input[start..], oldi, 1, BASE, bias)
      decreases |input| - index
    {
      ReadOne(input[index..], i, w, k, bias);
      if index < |input| && BasicToDigit(input[index]) >= 0 {
        GuardedSum(i, BasicToDigit(input[index]), w);
        GuardedWeight(w, BASE - Threshold(k, bias));
      }
      if index >= |input| {
        return Fail(InvalidInput), index;
      }
      var digit := BasicToDigit(input[index]);
      assert input[index..][1..] == input[index + 1..];
      index := index + 1;
      if digit < 0 {
        return Fail(NegativeDigit), index;
      }
      if digit >= BASE || digit > (MAX_INT - i) / w {
        return Fail(Overflow), index;
      }
      i := i + digit * w;
      var t := Threshold(k, bias);
      if digit < t {
        return Done(i, input[index..]), index;
      }
      var baseMinusT := BASE - t;
      if w > MAX_INT / baseMinusT {
        return Fail(Overflow), index;
      }
      w := w * baseMinusT;
      k := k + BASE;
    }
  }

  /** Wrapping and splicing, as the decoder does it at the end of its main loop. */
  method InsertPoint(output: seq<nat>, n: nat, i: nat) returns (r: Result<Progress, Error>)
    requires n <= MAX_INT && i <= MAX_INT
    ensures r == Insert(output, n, i)
  {
    var out := |output| + 1;
    DivIsQuotient(i, out);
    DivNat(i, out);
    if i / out > MAX_INT - n {
      return Err(Overflow);
    }
    var n' := n + i / out;
    var i' := i % out;
    r := Ok(Progress(output[..i'] + [n'] + output[i'..], n', i' + 1));
  }

  /** The decoder's main loop, from the first digit on. */
  method DecodeDigits(input: JsString, start: nat, basic: seq<nat>) returns (r: Result<seq<nat>, Error>)
    requires start <= |input|
    ensures r == DecodeTail(input[start..], basic, INITIAL_N, 0, INITIAL_BIAS)
  {
    hide ReadVarInt, Adapt, Insert;
    var output := basic;
    var n: nat, i: nat, bias: nat := INITIAL_N, 0, INITIAL_BIAS;
    var index := start;
    while index < |input|
      invariant 0 <= index <= |input|
      invariant n <= MAX_INT && i <= |output| && i <= MAX_INT + 1
      invariant DecodeTail(input[index..], output, n, i, bias)
             == DecodeTail(input[start..], basic, INITIAL_N, 0, INITIAL_BIAS)
      decreases |input| - index
    {
      var oldi := i;
      var read;
      read, index := ReadDelta(input, index, oldi, bias);
      if read.Fail? {
        return Err(read.error);
      }
      bias := ComputeAdapt(read.i - oldi, |output| + 1, oldi == 0);
      var inserted := InsertPoint(output, n, read.i);
      if inserted.Err? {
        return Err(inserted.error);
      }
      output, n, i := inserted.value.out, inserted.value.n, inserted.value.i;
    }
    r := Ok(output);
  }

  method DecodeCodePoints(input: JsString) returns (r: Result<seq<nat>, Error>)
    ensures r == DecodePoints(input)
  {
    hide LastDelimiter, DecodeTail;
    var basic := LastDelimiter(input);
    if basic < 0 {
      basic := 0;
    }
    var output: seq<nat> := [];
    for j := 0 to basic
      invariant output == input[..j]
      invariant forall p :: 0 <= p < j ==> input[p] < 0x80
    {
      if input[j] >= 0x80 {
        return Err(NotBasic);
      }
      output := output + [input[j]];
    }
    r := DecodeDigits(input, if basic > 0 then basic + 1 else 0, output);
  }

  /** `decode`. */
  method Decode(input: JsString) returns (r: Result<JsString, Error>)
    ensures r == Decoded(input)
  {
    var points := DecodeCodePoints(input);
    match points {
      case Err(e) => return Err(e);
      case Ok(cps) =>
        var output := Ucs2Encode(cps);
        r := Ok(output);
    }
  }

  // ---------------------------------------------------------------- theorems

  /**
   * For every JavaScript string, well-formed or not: decoding what was encoded gives the string back, and
   * otherwise raises overflow; it succeeds exactly when every wrapped counter value of the decoder fits 31 bits.
   */
  lemma RoundTrip(s: JsString)
    requires Encoded(s).Ok?
    ensures Decoded(Encoded(s).value)
         == if forall p :: 0 <= p < |AllInsertions(Ucs2Decoded(s))| ==>
                             AllInsertions(Ucs2Decoded(s))[p].index <= 2147483647
            then Ok(s) else Err(Overflow)
  {
    PointsRoundTrip(Ucs2Decoded(s));
    Ucs2RoundTrip(s);
  }

  lemma FitsIff(ins: seq<Insertion>)
    ensures DeltasFit(ins) <==> !exists p :: 0 <= p < |ins| && ins[p].delta > 2147483647
  {
  }

  /** Encoding fails, with overflow, exactly when a delta exceeds 31 bits. */
  lemma EncodesIff(s: JsString)
    ensures Encoded(s).Err? ==> Encoded(s).error == Overflow
    ensures Encoded(s).Err? <==> exists p :: 0 <= p < |AllInsertions(Ucs2Decoded(s))| &&
                                             AllInsertions(Ucs2Decoded(s))[p].delta > 2147483647
  {
    hide Ucs2Decoded, Below, Walk, Emit, AllInsertions;
    FitsIff(AllInsertions(Ucs2Decoded(s)));
  }

  /** There is one insertion for every code point not yet in place. */
  lemma {:induction false} WalkCounts(cps: seq<nat>, n: nat, j: nat, nd: nat, id: nat)
    requires j <= |cps| && Behind(cps, n, j, nd, id) && CodePoints(cps) && n <= MAX_CODE_POINT + 1
    ensures |Walk(cps, n, j, nd, id)| == |cps| - |Built(cps, n, j)|
    decreases MAX_CODE_POINT + 1 - n, |cps| - j
  {
    hide Below, IndexAt;
    if n > MAX_CODE_POINT {
      WalkEnds(cps, n, j, nd, id);
    } else if j == |cps| {
      BuiltNextValue(cps, n);
      WalkCounts(cps, n + 1, 0, nd, id);
    } else if cps[j] != n {
      BuiltSkip(cps, n, j);
      WalkCounts(cps, n, j + 1, nd, id);
    } else {
      BuiltInsert(cps, n, j);
      WalkCounts(cps, n, j + 1, n, |Below(cps[..j], n + 1)| + 1);
    }
  }

  lemma {:induction false} VarIntIsLower(q: nat, k: nat, bias: nat)
    ensures forall p :: 0 <= p < |VarInt(q, k, bias)| ==>
              97 <= VarInt(q, k, bias)[p] <= 122 || 48 <= VarInt(q, k, bias)[p] <= 57
    decreases q
  {
    var t := Threshold(k, bias);
    if q >= t {
      DivIsQuotient(q - t, BASE - t);
      DivNat(q - t, BASE - t);
      VarIntIsLower((q - t) / (BASE - t), k + BASE, bias);
    }
  }

  lemma {:induction false} EmitIsLower(ins: seq<Insertion>, bias: nat, first: bool)
    ensures |Emit(ins, bias, first)| >= |ins|
    ensures forall p :: 0 <= p < |Emit(ins, bias, first)| ==>
              97 <= Emit(ins, bias, first)[p] <= 122 || 48 <= Emit(ins, bias, first)[p] <= 57
  {
    hide VarInt, Adapt;
    if ins != [] {
      VarIntIsLower(ins[0].delta, BASE, bias);
      EmitIsLower(ins[1..], Adapt(ins[0].delta, ins[0].present + 1, first), false);
    }
  }

  /**
   * What an encoding looks like: the code points below 128 in order, then, if there are any, a hyphen, then small
   * letters and decimal digits only, and at least one of them for every other code point.
   */
  lemma EncodedForm(s: JsString)
    ensures Encoded(s).Ok? ==>
              var basic, text := Below(Ucs2Decoded(s), 128), Encoded(s).value;
              var start := if basic == [] then 0 else |basic| + 1;
              && start <= |text| && text[..|basic|] == basic
              && (basic != [] ==> text[|basic|] == 45)
              && (forall p :: start <= p < |text| ==> 97 <= text[p] <= 122 || 48 <= text[p] <= 57)
              && |text| - start >= |Ucs2Decoded(s)| - |basic|
  {
    hide Ucs2Decoded, Below, Walk, Emit;
    var cps := Ucs2Decoded(s);
    assert cps[..0] == [] && cps[0..] == cps;
    BelowEmpty(INITIAL_N + 1);
    WalkCounts(cps, INITIAL_N, 0, INITIAL_N, 0);
    if Encoded(s).Ok? {
      EmitIsLower(AllInsertions(Ucs2Decoded(s)), INITIAL_BIAS, true);
    }
  }

  /** Strings of up to 1927 code units, and so every domain name label, always survive both directions. */
  lemma ShortStringsRoundTrip(s: JsString)
    requires |s| <= SAFE_LENGTH
    ensures Encoded(s).Ok? && Decoded(Encoded(s).value) == Ok(s)
  {
    ShortInputsFit(Ucs2Decoded(s));
    RoundTrip(s);
  }

  /** Code points other than surrogates are what their own code units decode to. */
  lemma {:induction false} ScalarsSurvive(cps: seq<nat>)
    requires CodePoints(cps) && forall p :: 0 <= p < |cps| ==> !IsLead(cps[p]) && !IsTrail(cps[p])
    ensures Ucs2Decoded(Ucs2Encoded(cps)) == cps
  {
    if cps != [] {
      ScalarsSurvive(cps[1..]);
      var c, rest := cps[0], Ucs2Encoded(cps[1..]);
      var s := Units16(c) + rest;
      Ucs2Head(s);
      if c > 0xFFFF {
        var high, low := (c - 0x1_0000) / 0x400, (c - 0x1_0000) % 0x400;
        assert IsLead(s[0]) && IsTrail(s[1]) && Join16(s[0], s[1]) == c;
        assert s[2..] == rest;
      } else {
        assert s[1..] == rest;
      }
    }
  }

  /**
   * Where decoding starts and what it refuses: a character beyond 127 before the last hyphen; otherwise the characters
   * before that hyphen are taken over and the digits start behind it, or at the very beginning if it is the first
   * character or there is none.
   */
  lemma DecodingStarts(front: JsString, digits: JsString)
    requires forall p :: 0 <= p < |digits| ==> digits[p] != 45
    ensures (exists p :: 0 <= p < |front| && front[p] > 127) ==> DecodePoints(front + [45] + digits) == Err(NotBasic)
    ensures front != [] && (forall p :: 0 <= p < |front| ==> front[p] <= 127) ==>
              DecodePoints(front + [45] + digits) == DecodeTail(digits, front, 128, 0, 72)
    ensures DecodePoints([45] + digits) == DecodeTail([45] + digits, [], 128, 0, 72)
    ensures DecodePoints(digits) == DecodeTail(digits, [], 128, 0, 72)
  {
    hide DecodeTail, LastDelimiter;
    var s, t := front + [45] + digits, [45] + digits;
    assert s[|front|] == 45 && s[|front| + 1..] == digits && s[..|front|] == front;
    LastDelimiterBefore(s, |front|, digits);
    assert t[0] == 45 && t[1..] == digits && t[0..] == t && t[..0] == [];
    LastDelimiterBefore(t, 0, digits);
    assert LastDelimiter(digits) == -1;
    assert digits[0..] == digits && digits[..0] == [];
    if exists p :: 0 <= p < |front| && front[p] > 127 {
      var p :| 0 <= p < |front| && front[p] > 127;
      assert s[p] == front[p];
    } else {
      assert forall p :: 0 <= p < |front| ==> s[p] == front[p];
    }
  }

  /**
   * What a counter means: `steps` wraps and position `pos` insert the code point `n + steps` there, whatever it is, and
   * counting goes on behind it; only a code point beyond 2^31 - 1 is refused.
   */
  lemma InsertMeans(out: seq<nat>, n: nat, steps: nat, pos: nat)
    requires n <= MAX_INT && pos <= |out| && steps * (|out| + 1) + pos <= MAX_INT
    ensures 0 <= steps * (|out| + 1)
    ensures Insert(out, n, steps * (|out| + 1) + pos)
         == if n + steps > 2147483647 then Err(Overflow)
            else Ok(Progress(out[..pos] + [n + steps] + out[pos..], n + steps, pos + 1))
  {
    MulMono(0, steps, |out| + 1);
    DivModUnique(steps * (|out| + 1) + pos, |out| + 1, steps, pos);
  }

  /** A string that encodes without error and whose encoding does not decode. */
  lemma EncodedButUndecodable() returns (s: JsString)
    ensures Encoded(s).Ok? && Decoded(Encoded(s).value) == Err(Overflow)
  {
    hide EncodePoints, DecodePoints, Ucs2Decoded, Ucs2Encoded;
    s := Ucs2Encoded(GuardGap());
    ScalarsSurvive(GuardGap());
    GuardsDisagree();
  }

  predicate LettersDigitsHyphens(input: JsString) {
    forall p :: 0 <= p < |input| ==> IsLetterOrDigit(input[p]) || input[p] == DELIMITER
  }

  lemma SplicedBound(out: seq<nat>, p: nat, n: nat)
    requires p <= |out| && n <= MAX_INT && forall q :: 0 <= q < |out| ==> out[q] <= MAX_INT
    ensures forall q :: 0 <= q < |Splice(out, p, n)| ==> Splice(out, p, n)[q] <= MAX_INT
  {
  }

  lemma LargePointsDoNotShow(a: seq<nat>, n: nat, c: seq<nat>)
    requires n >= INITIAL_N
    ensures Below(a + [n] + c, INITIAL_N) == Below(a + c, INITIAL_N)
  {
    hide Below;
    BelowConcat(a + [n], c, INITIAL_N);
    BelowConcat(a, [n], INITIAL_N);
    BelowConcat(a, c, INITIAL_N);
    BelowOne(n, INITIAL_N);
    assert Below(a, INITIAL_N) + [] == Below(a, INITIAL_N);
  }

  lemma SplicedBasic(out: seq<nat>, p: nat, n: nat)
    requires p <= |out| && n >= INITIAL_N
    ensures Below(Splice(out, p, n), INITIAL_N) == Below(out, INITIAL_N)
  {
    hide Below;
    LargePointsDoNotShow(out[..p], n, out[p..]);
    assert out[..p] + out[p..] == out;
  }

  /** An insertion adds one code point of at least 128 and keeps the rest in place. */
  lemma InsertKeeps(out: seq<nat>, n: nat, i: nat)
    requires INITIAL_N <= n <= MAX_INT && i <= MAX_INT
    requires forall p :: 0 <= p < |out| ==> out[p] <= MAX_INT
    ensures Insert(out, n, i).Err? ==> Insert(out, n, i).error == Overflow
    ensures Insert(out, n, i).Ok? ==>
              var next := Insert(out, n, i).value;
              && (forall p :: 0 <= p < |next.out| ==> next.out[p] <= MAX_INT)
              && Below(next.out, INITIAL_N) == Below(out, INITIAL_N)
  {
    hide Below, Splice;
    var points := |out| + 1;
    DivIsQuotient(i, points);
    DivNat(i, points);
    var n', p := n + i / points, i % points;
    SplicedBasic(out, p, n');
    if n' <= MAX_INT {
      SplicedBound(out, p, n');
    }
  }

  lemma {:induction false} NoNegativeDigit(input: JsString, i: nat, w: nat, k: nat, bias: nat)
    requires 1 <= w <= MAX_INT && i <= MAX_INT + 1
    requires LettersDigitsHyphens(input)
    ensures var r := ReadVarInt(input, i, w, k, bias); r.Fail? ==> r.error in {Overflow, InvalidInput}
    decreases |input|
  {
    if input != [] {
      var digit := BasicToDigit(input[0]);
      if digit < BASE && digit <= (MAX_INT - i) / w && digit >= Threshold(k, bias)
         && w <= MAX_INT / (BASE - Threshold(k, bias)) {
        GuardedSum(i, digit, w);
        GuardedWeight(w, BASE - Threshold(k, bias));
        NoNegativeDigit(input[1..], i + digit * w, w * (BASE - Threshold(k, bias)), k + BASE, bias);
      }
    }
  }

  /**
   * On letters, digits and hyphens (a stray hyphen reads as the digit 23) the decoder stays in range: every value it
   * inserts, and the number of insertions.
   */
  lemma {:induction false} DecodeTailBounds(tail: JsString, out: seq<nat>, n: nat, i: nat, bias: nat)
    requires n <= MAX_INT && i <= MAX_INT + 1 && INITIAL_N <= n
    requires LettersDigitsHyphens(tail)
    requires forall p :: 0 <= p < |out| ==> out[p] <= MAX_INT
    ensures var r := DecodeTail(tail, out, n, i, bias);
            r.Err? ==> r.error in {Overflow, InvalidInput}
    ensures DecodeTail(tail, out, n, i, bias).Ok? ==>
              var r := DecodeTail(tail, out, n, i, bias).value;
              && |out| <= |r| <= |out| + |tail|
              && (forall p :: 0 <= p < |r| ==> r[p] <= MAX_INT)
              && Below(r, INITIAL_N) == Below(out, INITIAL_N)
    decreases |tail|
  {
    hide Adapt, Below, ReadVarInt, Insert;
    if tail != [] {
      NoNegativeDigit(tail, i, 1, BASE, bias);
      var read := ReadVarInt(tail, i, 1, BASE, bias);
      if read.Done? {
        InsertKeeps(out, n, read.i);
        var inserted := Insert(out, n, read.i);
        if inserted.Ok? {
          var next := inserted.value;
          DecodeTailBounds(read.rest, next.out, next.n, next.i, Adapt(read.i - i, |out| + 1, i == 0));
        }
      }
    }
  }

  /**
   * For every input of letters, digits and hyphens: decoding ends in a string or in one of the two documented
   * errors; code points stay within 31 bits, are at most as many as the input characters, and those below 128
   * are exactly the characters before the last hyphen, in order.
   */
  lemma DecodeBounds(input: JsString)
    requires LettersDigitsHyphens(input)
    ensures DecodePoints(input).Err? ==> DecodePoints(input).error in {Overflow, InvalidInput}
    ensures DecodePoints(input).Ok? ==>
              var r, last := DecodePoints(input).value, LastDelimiter(input);
              && |r| <= |input|
              && (forall p :: 0 <= p < |r| ==> r[p] <= MAX_INT)
              && Below(r, INITIAL_N) == input[..if last < 0 then 0 else last]
  {
    hide DecodeTail, Below, LastDelimiter;
    var last := LastDelimiter(input);
    var basic := if last < 0 then 0 else last;
    var start := if basic > 0 then basic + 1 else 0;
    BelowEverything(input[..basic], INITIAL_N);
    DecodeTailBounds(input[start..], input[..basic], INITIAL_N, 0, INITIAL_BIAS);
  }

  /** One round of the decoder's main loop: the state it starts from, and the counter once a number has been added. */
  datatype Round = Round(out: seq<nat>, n: nat, i: nat, counter: nat)

  /** All rounds the decoder completes on `tail`. */
  function Rounds(tail: JsString, out: seq<nat>, n: nat, i: nat, bias: nat): seq<Round>
    requires n <= MAX_INT && i <= MAX_INT + 1
    decreases |tail|
  {
    if tail == [] then []
    else
      match ReadVarInt(tail, i, 1, BASE, bias)
      case Fail(_) => []
      case Done(counter, rest) =>
        match Insert(out, n, counter)
        case Err(_) => []
        case Ok(next) =>
          [Round(out, n, i, counter)]
          + Rounds(rest, next.out, next.n, next.i, Adapt(counter - i, |out| + 1, i == 0))
  }

  /**
   * In every round on every input, successful or not: `n` and the counter stay within 31 bits, `i` never exceeds the
   * length of the output, nor that the number of characters, and the insertion lies within the output.
   */
  lemma {:induction false} RoundsStayInRange(tail: JsString, out: seq<nat>, n: nat, i: nat, bias: nat)
    requires n <= MAX_INT && i <= MAX_INT + 1 && i <= |out|
    ensures var rounds := Rounds(tail, out, n, i, bias);
            && |rounds| <= |tail|
            && (DecodeTail(tail, out, n, i, bias).Ok? ==> |DecodeTail(tail, out, n, i, bias).value| == |out| + |rounds|)
            && forall p :: 0 <= p < |rounds| ==>
                 && rounds[p].n <= MAX_INT && rounds[p].i <= rounds[p].counter <= MAX_INT
                 && rounds[p].i <= |rounds[p].out| == |out| + p
                 && rounds[p].counter % (|rounds[p].out| + 1) <= |rounds[p].out|
    decreases |tail|
  {
    hide Adapt, ReadVarInt, Insert;
    if tail != [] {
      var read := ReadVarInt(tail, i, 1, BASE, bias);
      if read.Done? && Insert(out, n, read.i).Ok? {
        var next := Insert(out, n, read.i).value;
        var later := Rounds(read.rest, next.out, next.n, next.i, Adapt(read.i - i, |out| + 1, i == 0));
        RoundsStayInRange(read.rest, next.out, next.n, next.i, Adapt(read.i - i, |out| + 1, i == 0));
        var rounds := Rounds(tail, out, n, i, bias);
        assert rounds == [Round(out, n, i, read.i)] + later;
        assert forall p :: 0 < p < |rounds| ==> rounds[p] == later[p - 1];
      }
    }
  }
}
