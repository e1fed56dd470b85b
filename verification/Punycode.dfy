/**
 * The Punycode codec of the AAS object bundle: RFC 3492's Bootstring with adaptive bias and
 * 31-bit overflow guards, over JavaScript strings.
 *
 * The encoder is specified by the decoder's state machine: `Walk` visits every pair
 * <code point n, position j> in order and lists the insertions the decoder has to make.
 */
module Punycode {
  import opened JsStrings
  import opened Arithmetic
  import opened PunycodeNumbers

  const INITIAL_BIAS := 72

  const INITIAL_N := 128

  const DELIMITER: CodeUnit := 45

  const MAX_CODE_POINT := 0x10_FFFF

  // ---------------------------------------------------------------- the decoder's output while it grows

  /** The elements of `cps` less than `n`, in order. */
  function Below(cps: seq<nat>, n: nat): (r: seq<nat>)
    ensures forall p :: 0 <= p < |r| ==> r[p] < n
    ensures |r| <= |cps|
  {
    if cps == [] then []
    else if cps[0] < n then [cps[0]] + Below(cps[1..], n)
    else Below(cps[1..], n)
  }

  /** What the decoder holds once it has passed state <n, j>: everything below n, and n itself before j. */
  function Built(cps: seq<nat>, n: nat, j: nat): seq<nat>
    requires j <= |cps|
  {
    Below(cps[..j], n + 1) + Below(cps[j..], n)
  }

  lemma {:induction false} BelowConcat(a: seq<nat>, b: seq<nat>, n: nat)
    ensures Below(a + b, n) == Below(a, n) + Below(b, n)
  {
    if a == [] {
      assert a + b == b;
    } else {
      assert (a + b)[1..] == a[1..] + b;
      BelowConcat(a[1..], b, n);
    }
  }

  lemma {:induction false} BelowEverything(cps: seq<nat>, n: nat)
    ensures (forall p :: 0 <= p < |cps| ==> cps[p] < n) <==> |Below(cps, n)| == |cps|
    ensures (forall p :: 0 <= p < |cps| ==> cps[p] < n) ==> Below(cps, n) == cps
  {
    if cps != [] {
      BelowEverything(cps[1..], n);
      assert forall p :: 0 < p < |cps| ==> cps[p] == cps[1..][p - 1];
      if forall p :: 0 <= p < |cps[1..]| ==> cps[1..][p] < n {
        forall p | 0 < p < |cps|
          ensures cps[p] < n
        {
          assert cps[p] == cps[1..][p - 1];
        }
      }
    }
  }

  /** Below(n) does not change over a gap in the values. */
  lemma {:induction false} BelowGap(cps: seq<nat>, n: nat, m: nat)
    requires n <= m
    requires forall p :: 0 <= p < |cps| ==> cps[p] < n || m <= cps[p]
    ensures Below(cps, n) == Below(cps, m)
  {
    if cps != [] {
      BelowGap(cps[1..], n, m);
    }
  }

  lemma PrefixStep(cps: seq<nat>, j: nat, n: nat)
    requires j < |cps|
    ensures Below(cps[..j + 1], n) == Below(cps[..j], n) + (if cps[j] < n then [cps[j]] else [])
    ensures Below(cps[j..], n) == (if cps[j] < n then [cps[j]] else []) + Below(cps[j + 1..], n)
  {
    assert cps[..j + 1] == cps[..j] + [cps[j]];
    assert cps[j..] == [cps[j]] + cps[j + 1..];
    BelowConcat(cps[..j], [cps[j]], n);
    BelowConcat([cps[j]], cps[j + 1..], n);
  }

  lemma BuiltSkip(cps: seq<nat>, n: nat, j: nat)
    requires j < |cps| && cps[j] != n
    ensures Built(cps, n, j + 1) == Built(cps, n, j)
    ensures |Below(cps[..j + 1], n + 1)| == |Below(cps[..j], n + 1)| + (if cps[j] < n then 1 else 0)
  {
    hide Below;
    PrefixStep(cps, j, n + 1);
    PrefixStep(cps, j, n);
  }

  function Splice(out: seq<nat>, p: nat, n: nat): seq<nat>
    requires p <= |out|
  {
    out[..p] + [n] + out[p..]
  }

  lemma BuiltInsert(cps: seq<nat>, n: nat, j: nat)
    requires j < |cps| && cps[j] == n
    ensures Splice(Built(cps, n, j), |Below(cps[..j], n + 1)|, n) == Built(cps, n, j + 1)
    ensures |Below(cps[..j + 1], n + 1)| == |Below(cps[..j], n + 1)| + 1
    ensures |Built(cps, n, j)| < |cps|
  {
    hide Below;
    PrefixStep(cps, j, n + 1);
    PrefixStep(cps, j, n);
  }

  lemma BuiltNextValue(cps: seq<nat>, n: nat)
    ensures Built(cps, n, |cps|) == Below(cps, n + 1) == Built(cps, n + 1, 0)
  {
    assert cps[..|cps|] == cps == cps[0..];
  }

  // ---------------------------------------------------------------- the insertions to encode

  /**
   * One insertion of the decoder: `delta` state increments after the previous one, it stands at the
   * wrapped counter value `index` among `present` code points.
   */
  datatype Insertion = Insertion(delta: nat, index: nat, present: nat)

  predicate Behind(cps: seq<nat>, n: nat, j: nat, nd: nat, id: nat)
    requires j <= |cps|
  {
    && nd <= n
    && id <= |Built(cps, n, j)|
    && (nd == n ==> id <= |Below(cps[..j], n + 1)|)
  }

  /** The counter value at which the decoder, last left in <nd, _>, reaches <n, position of j>. */
  function IndexAt(cps: seq<nat>, n: nat, j: nat, nd: nat): (index: int)
    requires j <= |cps| && nd <= n
  {
    (n - nd) * (|Built(cps, n, j)| + 1) + |Below(cps[..j], n + 1)|
  }

  lemma IndexIsAhead(cps: seq<nat>, n: nat, j: nat, nd: nat, id: nat)
    requires j <= |cps| && Behind(cps, n, j, nd, id)
    ensures IndexAt(cps, n, j, nd) >= id
    ensures IndexAt(cps, n, j, nd) >= |Below(cps[..j], n + 1)|
  {
    MulMono(0, n - nd, |Built(cps, n, j)| + 1);
    if nd < n {
      MulMono(1, n - nd, |Built(cps, n, j)| + 1);
    }
  }

  /** All insertions from state <n, j> on, the decoder having been left in <nd, id>. */
  function Walk(cps: seq<nat>, n: nat, j: nat, nd: nat, id: nat): seq<Insertion>
    requires j <= |cps| && Behind(cps, n, j, nd, id)
    decreases MAX_CODE_POINT + 1 - n, |cps| - j
  {
    if n > MAX_CODE_POINT then []
    else if j == |cps| then
      BuiltNextValue(cps, n);
      Walk(cps, n + 1, 0, nd, id)
    else if cps[j] != n then
      BuiltSkip(cps, n, j);
      Walk(cps, n, j + 1, nd, id)
    else
      BuiltInsert(cps, n, j);
      IndexIsAhead(cps, n, j, nd, id);
      var index := IndexAt(cps, n, j, nd);
      [Insertion(index - id, index, |Built(cps, n, j)|)] + Walk(cps, n, j + 1, n, |Below(cps[..j], n + 1)| + 1)
  }

  function AllInsertions(cps: seq<nat>): seq<Insertion> {
    Walk(cps, INITIAL_N, 0, INITIAL_N, 0)
  }

  predicate DeltasFit(ins: seq<Insertion>) {
    forall p :: 0 <= p < |ins| ==> ins[p].delta <= MAX_INT
  }

  predicate IndicesFit(ins: seq<Insertion>) {
    forall p :: 0 <= p < |ins| ==> ins[p].index <= MAX_INT
  }

  /** Every delta as a variable-length integer under the bias its predecessors leave behind. */
  function Emit(ins: seq<Insertion>, bias: nat, first: bool): (s: JsString)
    ensures forall p :: 0 <= p < |s| ==> IsLetterOrDigit(s[p])
  {
    if ins == [] then []
    else VarInt(ins[0].delta, BASE, bias) + Emit(ins[1..], Adapt(ins[0].delta, ins[0].present + 1, first), false)
  }

  function EncodePoints(cps: seq<nat>): Result<JsString, Error> {
    var ins := AllInsertions(cps);
    if !DeltasFit(ins) then Err(Overflow)
    else
      var basic := Below(cps, INITIAL_N);
      Ok(basic + (if basic == [] then [] else [DELIMITER]) + Emit(ins, INITIAL_BIAS, true))
  }

  // ---------------------------------------------------------------- the decoder

  /** The decoder between two insertions: output so far, current code point, position for the next one. */
  datatype Progress = Progress(out: seq<nat>, n: nat, i: nat)

  /** Wraps the counter `i` into a code point increment and a position, and inserts there. */
  function Insert(out: seq<nat>, n: nat, i: nat): (r: Result<Progress, Error>)
    requires n <= MAX_INT && i <= MAX_INT
    ensures r.Ok? ==> n <= r.value.n <= MAX_INT && 1 <= r.value.i <= i + 1 && r.value.i <= |out| + 1 == |r.value.out|
  {
    var points := |out| + 1;
    DivNat(i, points);
    DivIsQuotient(i, points);
    MulMono(0, i / points, points);
    if i / points > MAX_INT - n then Err(Overflow)
    else Ok(Progress(Splice(out, i % points, n + i / points), n + i / points, i % points + 1))
  }

  function DecodeTail(tail: JsString, out: seq<nat>, n: nat, i: nat, bias: nat): (r: Result<seq<nat>, Error>)
    requires n <= MAX_INT && i <= MAX_INT + 1
    decreases |tail|
  {
    if tail == [] then Ok(out)
    else
      match ReadVarInt(tail, i, 1, BASE, bias)
      case Fail(e) => Err(e)
      case Done(i', rest) =>
        match Insert(out, n, i')
        case Err(e) => Err(e)
        case Ok(next) => DecodeTail(rest, next.out, next.n, next.i, Adapt(i' - i, |out| + 1, i == 0))
  }

  function LastDelimiter(input: JsString): (r: int)
    ensures -1 <= r < |input|
    ensures r >= 0 ==> input[r] == DELIMITER
    ensures forall p :: r < p < |input| ==> input[p] != DELIMITER
  {
    if input == [] then -1
    else if input[|input| - 1] == DELIMITER then |input| - 1
    else LastDelimiter(input[..|input| - 1])
  }

  function DecodePoints(input: JsString): Result<seq<nat>, Error> {
    var last := LastDelimiter(input);
    var basic := if last < 0 then 0 else last;
    if exists p :: 0 <= p < basic && input[p] >= 0x80 then Err(NotBasic)
    else DecodeTail(input[if basic > 0 then basic + 1 else 0..], input[..basic], INITIAL_N, 0, INITIAL_BIAS)
  }

  // ---------------------------------------------------------------- round trip on code points

  predicate CodePoints(cps: seq<nat>) {
    forall p :: 0 <= p < |cps| ==> cps[p] <= MAX_CODE_POINT
  }

  lemma {:induction false} WalkRoundTrip(cps: seq<nat>, n: nat, j: nat, nd: nat, id: nat, bias: nat, first: bool)
    requires j <= |cps| && Behind(cps, n, j, nd, id) && CodePoints(cps)
    requires n <= MAX_CODE_POINT + 1 && nd <= MAX_CODE_POINT
    requires id <= MAX_INT + 1 && bias <= 198 && (first <==> id == 0)
    requires DeltasFit(Walk(cps, n, j, nd, id))
    ensures DecodeTail(Emit(Walk(cps, n, j, nd, id), bias, first), Built(cps, n, j), nd, id, bias)
         == if IndicesFit(Walk(cps, n, j, nd, id)) then Ok(cps) else Err(Overflow)
    decreases MAX_CODE_POINT + 1 - n, |cps| - j
  {
    if n > MAX_CODE_POINT {
      BelowEverything(cps[..j], n + 1);
      BelowEverything(cps[j..], n);
      assert cps[..j] + cps[j..] == cps;
    } else if j == |cps| {
      BuiltNextValue(cps, n);
      WalkRoundTrip(cps, n + 1, 0, nd, id, bias, first);
    } else if cps[j] != n {
      BuiltSkip(cps, n, j);
      WalkRoundTrip(cps, n, j + 1, nd, id, bias, first);
    } else {
      InsertionRoundTrip(cps, n, j, nd, id, bias, first);
    }
  }

  /** One iteration of the decoder's main loop on a delta that stands for `steps` wraps and position `pos`. */
  lemma DecodeStep(delta: nat, index: nat, steps: nat, pos: nat, rest: JsString, out: seq<nat>, n: nat, i: nat,
                   bias: nat)
    requires n + steps <= MAX_INT && i <= MAX_INT + 1 && bias <= 198
    requires index == i + delta && index == steps * (|out| + 1) + pos && pos <= |out|
    requires index <= MAX_INT ==> pos + 1 <= MAX_INT + 1
    ensures DecodeTail(VarInt(delta, BASE, bias) + rest, out, n, i, bias)
         == if index > MAX_INT then Err(Overflow)
            else DecodeTail(rest, Splice(out, pos, n + steps), n + steps, pos + 1, Adapt(delta, |out| + 1, i == 0))
  {
    hide VarInt, ReadVarInt, Adapt;
    VarIntRoundTrip(delta, BASE, bias, i, 1, rest, index);
    DivModUnique(index, |out| + 1, steps, pos);
  }

  lemma EmitCons(head: Insertion, tail: seq<Insertion>, bias: nat, first: bool)
    ensures Emit([head] + tail, bias, first)
         == VarInt(head.delta, BASE, bias) + Emit(tail, Adapt(head.delta, head.present + 1, first), false)
  {
    assert ([head] + tail)[1..] == tail;
  }

  lemma FirstAndRest(head: Insertion, tail: seq<Insertion>)
    ensures DeltasFit([head] + tail) <==> head.delta <= MAX_INT && DeltasFit(tail)
    ensures IndicesFit([head] + tail) <==> head.index <= MAX_INT && IndicesFit(tail)
  {
    var ins := [head] + tail;
    assert ins[0] == head;
    assert forall p :: 0 <= p < |tail| ==> tail[p] == ins[p + 1];
  }

  /** The decoder's iteration for the insertion at <n, j>. */
  lemma {:induction false} InsertionRoundTrip(cps: seq<nat>, n: nat, j: nat, nd: nat, id: nat, bias: nat, first: bool)
    requires j < |cps| && cps[j] == n && Behind(cps, n, j, nd, id) && CodePoints(cps)
    requires n <= MAX_CODE_POINT && nd <= MAX_CODE_POINT
    requires id <= MAX_INT + 1 && bias <= 198 && (first <==> id == 0)
    requires DeltasFit(Walk(cps, n, j, nd, id))
    ensures DecodeTail(Emit(Walk(cps, n, j, nd, id), bias, first), Built(cps, n, j), nd, id, bias)
         == if IndicesFit(Walk(cps, n, j, nd, id)) then Ok(cps) else Err(Overflow)
    decreases MAX_CODE_POINT + 1 - n, |cps| - j, 0
  {
    hide DecodeTail, Emit, Below, VarInt, Adapt;
    BuiltInsert(cps, n, j);
    IndexIsAhead(cps, n, j, nd, id);
    var built, pos := Built(cps, n, j), |Below(cps[..j], n + 1)|;
    var index := IndexAt(cps, n, j, nd);
    var head := Insertion(index - id, index, |built|);
    var ins' := Walk(cps, n, j + 1, n, pos + 1);
    assert Walk(cps, n, j, nd, id) == [head] + ins';
    FirstAndRest(head, ins');
    var bias' := Adapt(head.delta, |built| + 1, first);
    AdaptBound(head.delta, |built| + 1, first);
    EmitCons(head, ins', bias, first);
    var rest := Emit(ins', bias', false);
    DecodeStep(head.delta, index, n - nd, pos, rest, built, nd, id, bias);
    if index <= MAX_INT {
      assert Behind(cps, n, j + 1, n, pos + 1);
      WalkRoundTrip(cps, n, j + 1, n, pos + 1, bias', false);
      assert DecodeTail(VarInt(head.delta, BASE, bias) + rest, built, nd, id, bias)
          == DecodeTail(rest, Built(cps, n, j + 1), n, pos + 1, bias');
    }
  }

  lemma LastDelimiterUnique(s: JsString, n: nat)
    requires n < |s| && s[n] == DELIMITER && forall p :: n < p < |s| ==> s[p] != DELIMITER
    ensures LastDelimiter(s) == n
  {
    hide LastDelimiter;
  }

  lemma LastDelimiterBefore(s: JsString, n: nat, digits: JsString)
    requires n < |s| && s[n] == DELIMITER && s[n + 1..] == digits
    requires forall p :: 0 <= p < |digits| ==> digits[p] != DELIMITER
    ensures LastDelimiter(s) == n
  {
    hide LastDelimiter;
    forall p | n < p < |s|
      ensures s[p] != DELIMITER
    {
      assert s[p] == s[n + 1..][p - n - 1];
    }
    LastDelimiterUnique(s, n);
  }

  /** The last delimiter separates the basic code points from the digits, which contain none. */
  lemma FrameSplit(basic: seq<nat>, digits: JsString)
    requires forall p :: 0 <= p < |basic| ==> basic[p] < 0x80
    requires forall p :: 0 <= p < |digits| ==> IsLetterOrDigit(digits[p])
    ensures DecodePoints(basic + (if basic == [] then [] else [DELIMITER]) + digits)
         == DecodeTail(digits, basic, INITIAL_N, 0, INITIAL_BIAS)
  {
    hide DecodeTail, LastDelimiter;
    var s: JsString := basic + (if basic == [] then [] else [DELIMITER]) + digits;
    if basic == [] {
      assert s == digits;
      assert s[0..] == digits && s[..0] == basic;
    } else {
      assert s[|basic|] == DELIMITER && s[..|basic|] == basic && s[|basic| + 1..] == digits;
      LastDelimiterBefore(s, |basic|, digits);
    }
  }

  /** What the encoder writes decodes to the input exactly when every wrapped counter value fits 31 bits. */
  lemma PointsRoundTrip(cps: seq<nat>)
    requires CodePoints(cps) && EncodePoints(cps).Ok?
    ensures DecodePoints(EncodePoints(cps).value)
         == if IndicesFit(AllInsertions(cps)) then Ok(cps) else Err(Overflow)
  {
    var basic, digits := Below(cps, INITIAL_N), Emit(AllInsertions(cps), INITIAL_BIAS, true);
    WalkRoundTrip(cps, INITIAL_N, 0, INITIAL_N, 0, INITIAL_BIAS, true);
    assert cps[0..] == cps && Built(cps, INITIAL_N, 0) == basic;
    FrameSplit(basic, digits);
  }

  // ---------------------------------------------------------------- when the guards cannot fire

  lemma {:induction false} WalkSkipRow(cps: seq<nat>, n: nat, j: nat, j': nat, nd: nat, id: nat)
    requires j <= j' <= |cps| && Behind(cps, n, j, nd, id)
    requires forall p :: j <= p < j' ==> cps[p] != n
    ensures Built(cps, n, j') == Built(cps, n, j) && Behind(cps, n, j', nd, id)
    ensures Walk(cps, n, j, nd, id) == Walk(cps, n, j', nd, id)
    decreases j' - j
  {
    if j < j' {
      BuiltSkip(cps, n, j);
      WalkSkipRow(cps, n, j + 1, j', nd, id);
    }
  }

  /** Values that do not occur cost the walk nothing: this is what the encoder's jump to `m` relies on. */
  lemma {:induction false} WalkSkipValues(cps: seq<nat>, n: nat, m: nat, nd: nat, id: nat)
    requires n <= m <= MAX_CODE_POINT + 1 && Behind(cps, n, 0, nd, id)
    requires forall p :: 0 <= p < |cps| ==> cps[p] < n || m <= cps[p]
    ensures Built(cps, m, 0) == Built(cps, n, 0) && Behind(cps, m, 0, nd, id)
    ensures Walk(cps, n, 0, nd, id) == Walk(cps, m, 0, nd, id)
    decreases m - n
  {
    if n < m {
      WalkSkipRow(cps, n, 0, |cps|, nd, id);
      BuiltNextValue(cps, n);
      WalkSkipValues(cps, n + 1, m, nd, id);
    }
  }

  /** From <n, j> on, the wrapped counter never exceeds one lap of all code points per value step. */
  lemma {:induction false} WalkIndexBound(cps: seq<nat>, n: nat, j: nat, nd: nat, id: nat, bound: nat)
    requires j <= |cps| && Behind(cps, n, j, nd, id) && INITIAL_N <= nd
    requires (MAX_CODE_POINT - INITIAL_N) * |cps| + |cps| <= bound + 1
    ensures forall p :: 0 <= p < |Walk(cps, n, j, nd, id)| ==> Walk(cps, n, j, nd, id)[p].index <= bound
    decreases MAX_CODE_POINT + 1 - n, |cps| - j
  {
    hide Below;
    if n > MAX_CODE_POINT {
    } else if j == |cps| {
      BuiltNextValue(cps, n);
      WalkIndexBound(cps, n + 1, 0, nd, id, bound);
    } else if cps[j] != n {
      BuiltSkip(cps, n, j);
      WalkIndexBound(cps, n, j + 1, nd, id, bound);
    } else {
      BuiltInsert(cps, n, j);
      WalkIndexBound(cps, n, j + 1, n, |Below(cps[..j], n + 1)| + 1, bound);
      MulMono(n - nd, MAX_CODE_POINT - INITIAL_N, |Built(cps, n, j)| + 1);
      MulMono(|Built(cps, n, j)| + 1, |cps|, MAX_CODE_POINT - INITIAL_N);
    }
  }

  /** The longest length at which no guard of either direction can fire. */
  const SAFE_LENGTH := 1927

  lemma {:induction false} DeltasBelowIndices(cps: seq<nat>, n: nat, j: nat, nd: nat, id: nat)
    requires j <= |cps| && Behind(cps, n, j, nd, id)
    ensures forall p :: 0 <= p < |Walk(cps, n, j, nd, id)| ==>
              Walk(cps, n, j, nd, id)[p].delta <= Walk(cps, n, j, nd, id)[p].index
    decreases MAX_CODE_POINT + 1 - n, |cps| - j
  {
    hide Below, IndexAt;
    if n > MAX_CODE_POINT {
    } else if j == |cps| {
      BuiltNextValue(cps, n);
      DeltasBelowIndices(cps, n + 1, 0, nd, id);
    } else if cps[j] != n {
      BuiltSkip(cps, n, j);
      DeltasBelowIndices(cps, n, j + 1, nd, id);
    } else {
      BuiltInsert(cps, n, j);
      DeltasBelowIndices(cps, n, j + 1, n, |Below(cps[..j], n + 1)| + 1);
    }
  }

  lemma ShortInputsFit(cps: seq<nat>)
    requires CodePoints(cps) && |cps| <= SAFE_LENGTH
    ensures EncodePoints(cps).Ok? && IndicesFit(AllInsertions(cps))
  {
    MulMono(|cps|, SAFE_LENGTH, MAX_CODE_POINT - INITIAL_N);
    WalkIndexBound(cps, INITIAL_N, 0, INITIAL_N, 0, MAX_INT);
    DeltasBelowIndices(cps, INITIAL_N, 0, INITIAL_N, 0);
  }

  // ---------------------------------------------------------------- the bound is sharp

  /** 1928 code points: a high one, 1926 times `a`, and U+0080. */
  function GuardGap(): (cps: seq<nat>) {
    [0x10_FF71] + seq(1926, _ => 97) + [0x80]
  }

  lemma BelowOne(x: nat, n: nat)
    ensures Below([x], n) == if x < n then [x] else []
  {
  }

  lemma BelowEmpty(n: nat)
    ensures Below([], n) == []
  {
  }

  lemma GuardGapCounts()
    ensures var cps, c := GuardGap(), 0x10_FF71;
            && |cps| == 1928 && CodePoints(cps) && Below(cps, INITIAL_N) == seq(1926, _ => 97)
            && |Below(cps[..1927], 0x81)| == |Built(cps, 0x80, 1927)| == 1926
            && |Below(cps[..0], c + 1)| == 0 && |Built(cps, c, 0)| == 1927
  {
    hide Below;
    var cps, c := GuardGap(), 0x10_FF71;
    var plain: seq<nat> := seq(1926, _ => 97);
    var low: seq<nat> := [0x80];
    assert cps[..1927] == [c] + plain && cps[1927..] == low && cps == [c] + (plain + low);
    assert cps[0..] == cps && cps[..0] == [];
    forall n | n in {0x80, 0x81, c, c + 1}
      ensures Below(plain, n) == plain
      ensures Below([c] + plain, n) == Below([c], n) + plain
      ensures Below(cps, n) == Below([c], n) + (plain + Below(low, n))
    {
      BelowEverything(plain, n);
      BelowConcat([c], plain, n);
      BelowConcat(plain, low, n);
      BelowConcat([c], plain + low, n);
    }
    BelowOne(c, 0x80);
    BelowOne(c, 0x81);
    BelowOne(c, c);
    BelowOne(0x80, 0x80);
    BelowOne(0x80, c);
    BelowEmpty(c + 1);
  }

  lemma GapFirst()
    ensures Behind(GuardGap(), 0x81, 0, 0x80, 1927)
    ensures AllInsertions(GuardGap()) == [Insertion(1926, 1926, 1926)] + Walk(GuardGap(), 0x81, 0, 0x80, 1927)
  {
    hide Below;
    var cps := GuardGap();
    GuardGapCounts();
    WalkSkipRow(cps, 0x80, 0, 1927, 0x80, 0);
    BuiltInsert(cps, 0x80, 1927);
    BuiltNextValue(cps, 0x80);
  }

  lemma GapRest()
    requires Behind(GuardGap(), 0x10_FF71, 1, 0x10_FF71, 1)
    ensures Walk(GuardGap(), 0x10_FF71, 1, 0x10_FF71, 1) == []
  {
    hide Below, IndexAt;
    var cps, c := GuardGap(), 0x10_FF71;
    WalkSkipRow(cps, c, 1, 1928, c, 1);
    BuiltNextValue(cps, c);
    WalkSkipValues(cps, c + 1, MAX_CODE_POINT + 1, c, 1);
  }

  lemma GapSecond()
    requires Behind(GuardGap(), 0x81, 0, 0x80, 1927)
    ensures Walk(GuardGap(), 0x81, 0, 0x80, 1927) == [Insertion(2147483521, 2147485448, 1927)]
  {
    hide Below;
    var cps, c := GuardGap(), 0x10_FF71;
    GuardGapCounts();
    WalkSkipValues(cps, 0x81, c, 0x80, 1927);
    BuiltInsert(cps, c, 0);
    GapRest();
  }

  lemma GapOverflows(cps: seq<nat>, ins: seq<Insertion>)
    requires ins == AllInsertions(cps) == [Insertion(1926, 1926, 1926), Insertion(2147483521, 2147485448, 1927)]
    ensures EncodePoints(cps).Ok? && !IndicesFit(ins)
  {
    hide Walk, Emit;
    assert ins[1].index > MAX_INT;
  }

  /** One code point more than `SAFE_LENGTH`, and encoding succeeds although its output does not decode. */
  lemma GuardsDisagree()
    ensures EncodePoints(GuardGap()).Ok?
    ensures DecodePoints(EncodePoints(GuardGap()).value) == Err(Overflow)
  {
    hide Below, Walk, EncodePoints, DecodePoints;
    GuardGapCounts();
    GapFirst();
    GapSecond();
    GapOverflows(GuardGap(), AllInsertions(GuardGap()));
    PointsRoundTrip(GuardGap());
  }
}
