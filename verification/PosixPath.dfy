/**
 * The POSIX path normaliser of the bundle: a one-pass character machine, proved against a stack of segments.
 */
module PosixPath {
  import opened JsStrings

  const SLASH: CodeUnit := 47

  const DOT: CodeUnit := 46

  const HERE: JsString := [46]

  const UP: JsString := [46, 46]

  // ---------------------------------------------------------------- segments and the stack

  predicate NoSlash(s: JsString) {
    SLASH !in s
  }

  /** The pieces between the slashes; the empty string is one empty piece. */
  function Segments(path: JsString): (r: seq<JsString>)
    ensures |r| >= 1
  {
    if path == [] then [[]]
    else
      var rest := Segments(path[1..]);
      if path[0] == SLASH then [[]] + rest else [[path[0]] + rest[0]] + rest[1..]
  }

  /** One segment on the stack: empty and "." do nothing, ".." pops an ordinary top or is kept above the root. */
  function Push(stack: seq<JsString>, segment: JsString, allowAboveRoot: bool): seq<JsString> {
    if segment == [] || segment == HERE then stack
    else if segment == UP then
      if stack != [] && stack[|stack| - 1] != UP then stack[..|stack| - 1]
      else if allowAboveRoot then stack + [UP]
      else stack
    else stack + [segment]
  }

  function Resolve(segments: seq<JsString>, stack: seq<JsString>, allowAboveRoot: bool): seq<JsString> {
    if segments == [] then stack
    else Resolve(segments[1..], Push(stack, segments[0], allowAboveRoot), allowAboveRoot)
  }

  function Join(stack: seq<JsString>): JsString {
    if stack == [] then []
    else
      var init, last := stack[..|stack| - 1], stack[|stack| - 1];
      if init == [] then last else Join(init) + [SLASH] + last
  }

  function NormalizedString(path: JsString, allowAboveRoot: bool): JsString {
    Join(Resolve(Segments(path), [], allowAboveRoot))
  }

  lemma SegmentsCons(c: CodeUnit, s: JsString)
    ensures Segments([c] + s)
         == if c == SLASH then [[]] + Segments(s) else [[c] + Segments(s)[0]] + Segments(s)[1..]
  {
    assert ([c] + s)[1..] == s;
  }

  lemma GrowFirst(c: CodeUnit, s: seq<JsString>, t: seq<JsString>)
    requires |s| >= 1
    ensures [[c] + (s + t)[0]] + (s + t)[1..] == [[c] + s[0]] + s[1..] + t
  {
    assert (s + t)[1..] == s[1..] + t;
  }

  lemma FirstOff(a: JsString, b: JsString)
    requires a != []
    ensures a == [a[0]] + a[1..]
    ensures a + [SLASH] + b == [a[0]] + (a[1..] + [SLASH] + b)
  {
  }

  lemma {:induction false} SegmentsAtSlash(a: JsString, b: JsString)
    ensures Segments(a + [SLASH] + b) == Segments(a) + Segments(b)
    decreases |a|, 1
  {
    if a == [] {
      SegmentsCons(SLASH, b);
      assert a + [SLASH] + b == [SLASH] + b;
    } else {
      SegmentsAtSlashStep(a, b);
    }
  }

  lemma {:induction false} SegmentsAtSlashStep(a: JsString, b: JsString)
    requires a != []
    ensures Segments(a + [SLASH] + b) == Segments(a) + Segments(b)
    decreases |a|, 0
  {
    hide Segments;
    var c, tail := a[0], a[1..];
    SegmentsAtSlash(tail, b);
    FirstOff(a, b);
    SegmentsCons(c, tail + [SLASH] + b);
    SegmentsCons(c, tail);
    if c != SLASH {
      GrowFirst(c, Segments(tail), Segments(b));
    }
  }

  lemma {:induction false} SegmentsOfOne(a: JsString)
    requires NoSlash(a)
    ensures Segments(a) == [a]
  {
    if a != [] {
      assert NoSlash(a[1..]);
      SegmentsOfOne(a[1..]);
      assert [a[0]] + a[1..] == a;
    }
  }

  // ---------------------------------------------------------------- the character machine

  /** Segments as they occur in the result: not empty, no slash. */
  predicate Proper(stack: seq<JsString>) {
    forall p :: 0 <= p < |stack| ==> stack[p] != [] && NoSlash(stack[p])
  }

  function Top(stack: seq<JsString>): JsString {
    if stack == [] then [] else stack[|stack| - 1]
  }

  function LastSlash(s: JsString): (r: int)
    ensures -1 <= r < |s|
    ensures r >= 0 ==> s[r] == SLASH
    ensures forall p :: r < p < |s| ==> s[p] != SLASH
  {
    if s == [] then -1
    else if s[|s| - 1] == SLASH then |s| - 1
    else LastSlash(s[..|s| - 1])
  }

  lemma JoinNonEmpty(stack: seq<JsString>)
    requires Proper(stack)
    ensures |Join(stack)| > 0 <==> stack != []
  {
  }

  /** What the result text shows of the stack: its end is the top, and the last slash cuts it off. */
  lemma JoinEnds(stack: seq<JsString>)
    requires Proper(stack) && stack != []
    ensures var res, top := Join(stack), Top(stack);
            && |res| >= |top| >= 1 && res[|res| - |top|..] == top
            && (|stack| == 1 ==> res == top && LastSlash(res) == -1)
            && (|stack| > 1 ==> && LastSlash(res) == |res| - |top| - 1 >= 1
                                && res[..LastSlash(res)] == Join(stack[..|stack| - 1])
                                && |res| >= 3)
  {
    var res, top := Join(stack), Top(stack);
    assert NoSlash(top);
    if |stack| > 1 {
      var init := stack[..|stack| - 1];
      assert Proper(init);
      JoinNonEmpty(init);
      assert res == Join(init) + [SLASH] + top;
      assert res[|Join(init)|] == SLASH;
      assert forall p :: |Join(init)| < p < |res| ==> res[p] == top[p - |Join(init)| - 1];
      assert LastSlash(res) == |Join(init)|;
    } else {
      assert res == top;
    }
  }

  predicate Shows(res: JsString, lastSegmentLength: int, stack: seq<JsString>) {
    Proper(stack) && res == Join(stack) && lastSegmentLength == |Top(stack)|
  }

  /** `dots` counts the segment while it consists of dots only, and is -1 once it does not. */
  predicate CountsDots(dots: int, segment: JsString) {
    if forall p :: 0 <= p < |segment| ==> segment[p] == DOT then dots == |segment| else dots == -1
  }

  /** The text test for a ".." on top, by the segment length and the last two characters. */
  predicate EndsInUp(res: JsString, lastSegmentLength: int) {
    !(|res| < 2 || lastSegmentLength != 2 || res[|res| - 1] != DOT || res[|res| - 2] != DOT)
  }

  lemma EndsInUpIff(res: JsString, lastSegmentLength: int, stack: seq<JsString>)
    requires Shows(res, lastSegmentLength, stack)
    ensures EndsInUp(res, lastSegmentLength) <==> stack != [] && Top(stack) == UP
  {
    hide Join, LastSlash;
    if stack != [] {
      JoinEnds(stack);
    }
  }

  lemma PushUp(stack: seq<JsString>, allowAboveRoot: bool)
    ensures Push(stack, UP, allowAboveRoot)
         == if stack != [] && Top(stack) != UP then stack[..|stack| - 1]
            else if allowAboveRoot then stack + [UP] else stack
  {
  }

  lemma EmptyJoin()
    ensures Join([]) == []
  {
  }

  lemma ProperPrefix(stack: seq<JsString>, n: nat)
    requires Proper(stack) && n <= |stack|
    ensures Proper(stack[..n])
  {
  }

  /** After popping one of several segments the new top is what follows the last slash. */
  lemma PopShows(stack: seq<JsString>)
    requires Proper(stack) && |stack| > 1
    ensures var init := stack[..|stack| - 1];
            Proper(init) && |Top(init)| == |Join(init)| - 1 - LastSlash(Join(init))
  {
    ProperPrefix(stack, |stack| - 1);
    hide Join, LastSlash, Proper, Top;
    JoinEnds(stack[..|stack| - 1]);
  }

  /** The cases of the cut: nothing there, one segment, or several with a slash before the last. */
  lemma Cut(res: JsString, lastSegmentLength: int, stack: seq<JsString>)
    requires Shows(res, lastSegmentLength, stack)
    ensures res == [] <==> stack == []
    ensures LastSlash(res) == -1 && res != [] ==> Shows([], 0, stack[..|stack| - 1])
    ensures LastSlash(res) >= 0 ==>
              var rest := res[..LastSlash(res)];
              |res| > 2 && stack != [] && Shows(rest, |rest| - 1 - LastSlash(rest), stack[..|stack| - 1])
    ensures LastSlash(res) == |res| - 1 ==> res == []
  {
    hide Join, LastSlash;
    JoinNonEmpty(stack);
    EmptyJoin();
    if |stack| == 1 {
      JoinEnds(stack);
      assert stack[..|stack| - 1] == [];
    } else if |stack| > 1 {
      JoinEnds(stack);
      PopShows(stack);
    }
  }

  /**
   * Cuts the result at its last slash; one or two characters are always a single segment. The last slash is never the
   * last character, so that anything but an empty result is cut.
   */
  method DropLast(res: JsString, lastSegmentLength: int, ghost stack: seq<JsString>)
    returns (dropped: bool, res': JsString, length: int)
    requires Shows(res, lastSegmentLength, stack)
    ensures dropped <==> stack != []
    ensures if dropped then Shows(res', length, stack[..|stack| - 1]) else res' == res && length == lastSegmentLength
  {
    hide Shows, LastSlash;
    Cut(res, lastSegmentLength, stack);
    dropped, res', length := false, res, lastSegmentLength;
    if |res| > 2 {
      var lastSlashIndex := LastSlash(res);
      if lastSlashIndex != |res| - 1 {
        if lastSlashIndex == -1 {
          res', length := [], 0;
        } else {
          res' := res[..lastSlashIndex];
          length := |res'| - 1 - LastSlash(res');
        }
        dropped := true;
      }
    } else if |res| == 2 || |res| == 1 {
      dropped, res', length := true, [], 0;
    }
  }

  lemma PushShows(stack: seq<JsString>, segment: JsString)
    requires Proper(stack) && segment != [] && NoSlash(segment)
    ensures Proper(stack + [segment]) && Top(stack + [segment]) == segment
    ensures Join(stack + [segment]) == if |Join(stack)| > 0 then Join(stack) + [SLASH] + segment else segment
  {
    JoinNonEmpty(stack);
    assert (stack + [segment])[..|stack|] == stack;
  }

  /** The ".." case: remove the last segment unless it is itself "..", else keep ".." above the root. */
  method CloseUp(res: JsString, lastSegmentLength: int, allowAboveRoot: bool, ghost stack: seq<JsString>)
    returns (res': JsString, length: int)
    requires Shows(res, lastSegmentLength, stack)
    ensures Shows(res', length, Push(stack, UP, allowAboveRoot))
  {
    hide Join, LastSlash, Push, EndsInUp, Top;
    res', length := res, lastSegmentLength;
    JoinNonEmpty(stack);
    PushUp(stack, allowAboveRoot);
    EndsInUpIff(res, lastSegmentLength, stack);
    if !EndsInUp(res, lastSegmentLength) {
      var dropped;
      dropped, res', length := DropLast(res, lastSegmentLength, stack);
      if dropped {
        return;
      }
    }
    if allowAboveRoot {
      PushShows(stack, UP);
      res' := if |res| > 0 then res + [SLASH] + UP else UP;
      length := 2;
    }
  }

  /** The work at a slash (or at the end), for the segment between `lastSlash` and `i`. */
  method CloseSegment(path: JsString, res: JsString, lastSegmentLength: int, lastSlash: int, i: int, dots: int,
                      allowAboveRoot: bool, ghost stack: seq<JsString>)
    returns (res': JsString, length: int)
    requires -1 <= lastSlash < i <= |path|
    requires NoSlash(path[lastSlash + 1..i]) && CountsDots(dots, path[lastSlash + 1..i])
    requires Shows(res, lastSegmentLength, stack)
    ensures Shows(res', length, Push(stack, path[lastSlash + 1..i], allowAboveRoot))
  {
    hide Join, LastSlash, Top;
    res', length := res, lastSegmentLength;
    ghost var segment := path[lastSlash + 1..i];
    if lastSlash == i - 1 || dots == 1 {
      assert segment == [] || segment == HERE;
    } else if dots == 2 {
      assert segment == UP;
      res', length := CloseUp(res, lastSegmentLength, allowAboveRoot, stack);
    } else {
      assert segment != UP && segment != HERE && segment != [];
      PushShows(stack, segment);
      res' := if |res| > 0 then res + [SLASH] + path[lastSlash + 1..i] else path[lastSlash + 1..i];
      length := i - lastSlash - 1;
    }
  }

  /** What is left of the path from `start` on, on top of `stack`, gives the whole result. */
  predicate Pending(path: JsString, start: nat, stack: seq<JsString>, allowAboveRoot: bool) {
    (if start <= |path| then Resolve(Segments(path[start..]), stack, allowAboveRoot) else stack)
    == Resolve(Segments(path), [], allowAboveRoot)
  }

  /** The segment being read: the text after the last slash, without slashes, its dots counted. */
  predicate Reading(path: JsString, start: nat, i: nat, dots: int) {
    start <= i <= |path| && NoSlash(path[start..i]) && CountsDots(dots, path[start..i])
  }

  lemma StartOfPath(path: JsString, allowAboveRoot: bool)
    ensures Shows([], 0, []) && Reading(path, 0, 0, 0) && Pending(path, 0, [], allowAboveRoot)
  {
    EmptyJoin();
    assert path[0..] == path;
  }

  lemma ReadingStep(path: JsString, start: nat, i: nat, dots: int)
    requires i < |path| && Reading(path, start, i, dots) && path[i] != SLASH
    ensures Reading(path, start, i + 1, if path[i] == DOT && dots != -1 then dots + 1 else -1)
  {
    var segment, c := path[start..i], path[i];
    var longer := segment + [c];
    assert path[start..i + 1] == longer;
    assert longer[|segment|] == c;
    assert forall p :: 0 <= p < |segment| ==> longer[p] == segment[p];
  }

  lemma ResolveCons(segment: JsString, rest: seq<JsString>, stack: seq<JsString>, allowAboveRoot: bool)
    ensures Resolve([segment] + rest, stack, allowAboveRoot)
         == Resolve(rest, Push(stack, segment, allowAboveRoot), allowAboveRoot)
  {
    assert ([segment] + rest)[1..] == rest;
  }

  lemma ResolveNothing(stack: seq<JsString>, allowAboveRoot: bool)
    ensures Resolve([], stack, allowAboveRoot) == stack
  {
  }

  /** Consuming the segment that ends at `i`, where a slash stands or the path is over. */
  lemma NextSegment(path: JsString, start: nat, i: nat, stack: seq<JsString>, allowAboveRoot: bool)
    requires start <= i <= |path| && NoSlash(path[start..i]) && (i < |path| ==> path[i] == SLASH)
    requires Pending(path, start, stack, allowAboveRoot)
    ensures Pending(path, i + 1, Push(stack, path[start..i], allowAboveRoot), allowAboveRoot)
  {
    hide Segments, Resolve, Push;
    var segment := path[start..i];
    SegmentsOfOne(segment);
    if i < |path| {
      SegmentsAtSlash(segment, path[i + 1..]);
      assert path[start..] == segment + [SLASH] + path[i + 1..];
      ResolveCons(segment, Segments(path[i + 1..]), stack, allowAboveRoot);
    } else {
      assert path[start..] == segment;
      ResolveCons(segment, [], stack, allowAboveRoot);
      ResolveNothing(Push(stack, segment, allowAboveRoot), allowAboveRoot);
      assert [segment] + [] == [segment];
    }
  }

  lemma EmptySegment(stack: seq<JsString>, allowAboveRoot: bool)
    ensures Segments([]) == [[]] && Resolve([[]], stack, allowAboveRoot) == stack
  {
  }

  /** Once the path is used up, or only the empty segment after a final slash is left, the text is the result. */
  lemma EndOfPath(path: JsString, start: nat, res: JsString, lastSegmentLength: int, stack: seq<JsString>,
                  allowAboveRoot: bool)
    requires start >= |path| && Pending(path, start, stack, allowAboveRoot) && Shows(res, lastSegmentLength, stack)
    ensures res == NormalizedString(path, allowAboveRoot)
  {
    if start == |path| {
      assert path[start..] == [];
      EmptySegment(stack, allowAboveRoot);
    }
  }

  /** A slash, or the end of the path, closes the segment being read and starts the next one. */
  method AtSlash(path: JsString, res: JsString, lastSegmentLength: int, lastSlash: int, i: nat, dots: int,
                 allowAboveRoot: bool, ghost stack: seq<JsString>)
    returns (res': JsString, length: int, ghost stack': seq<JsString>)
    requires -1 <= lastSlash < i <= |path| && (i < |path| ==> path[i] == SLASH)
    requires Reading(path, lastSlash + 1, i, dots)
    requires Shows(res, lastSegmentLength, stack) && Pending(path, lastSlash + 1, stack, allowAboveRoot)
    ensures Shows(res', length, stack') && Pending(path, i + 1, stack', allowAboveRoot)
    ensures i < |path| ==> Reading(path, i + 1, i + 1, 0)
  {
    hide Segments, Resolve, Push, Pending, Shows;
    NextSegment(path, lastSlash + 1, i, stack, allowAboveRoot);
    res', length := CloseSegment(path, res, lastSegmentLength, lastSlash, i, dots, allowAboveRoot, stack);
    stack' := Push(stack, path[lastSlash + 1..i], allowAboveRoot);
  }

  method NormalizeStringPosix(path: JsString, allowAboveRoot: bool) returns (res: JsString)
    ensures res == NormalizedString(path, allowAboveRoot)
  {
    hide NormalizedString, Pending, Reading, Shows;
    res := [];
    var lastSegmentLength, lastSlash, dots := 0, -1, 0;
    var code: int := -1;
    ghost var stack: seq<JsString> := [];
    StartOfPath(path, allowAboveRoot);
    var i := 0;
    while i <= |path|
      invariant 0 <= i <= |path| + 1 && -1 <= lastSlash < i
      invariant i <= |path| ==> Reading(path, lastSlash + 1, i, dots)
      invariant i == |path| + 1 ==> lastSlash == |path|
      invariant code == SLASH ==> lastSlash == i - 1
      invariant Shows(res, lastSegmentLength, stack)
      invariant Pending(path, lastSlash + 1, stack, allowAboveRoot)
      decreases |path| + 1 - i
    {
      if i < |path| {
        code := path[i];
      } else if code == SLASH {
        break;
      } else {
        code := SLASH;
      }
      if code == SLASH {
        res, lastSegmentLength, stack :=
          AtSlash(path, res, lastSegmentLength, lastSlash, i, dots, allowAboveRoot, stack);
        lastSlash := i;
        dots := 0;
      } else {
        ReadingStep(path, lastSlash + 1, i, dots);
        if code == DOT && dots != -1 {
          dots := dots + 1;
        } else {
          dots := -1;
        }
      }
      i := i + 1;
    }
    EndOfPath(path, lastSlash + 1, res, lastSegmentLength, stack, allowAboveRoot);
  }

  // ---------------------------------------------------------------- normal forms

  /** Stacks the resolver produces: ".." only at the bottom and only above a relative root, never ".". */
  predicate Normal(stack: seq<JsString>, allowAboveRoot: bool) {
    && Proper(stack)
    && (forall p :: 0 <= p < |stack| ==> stack[p] != HERE)
    && (forall p :: 0 <= p < |stack| && stack[p] == UP ==> allowAboveRoot && (p == 0 || stack[p - 1] == UP))
  }

  lemma {:induction false} ResolveIsNormal(segments: seq<JsString>, stack: seq<JsString>, allowAboveRoot: bool)
    requires Normal(stack, allowAboveRoot)
    requires forall p :: 0 <= p < |segments| ==> NoSlash(segments[p])
    ensures Normal(Resolve(segments, stack, allowAboveRoot), allowAboveRoot)
    decreases |segments|
  {
    if segments != [] {
      assert NoSlash(segments[0]);
      assert forall p :: 0 <= p < |segments[1..]| ==> segments[1..][p] == segments[p + 1];
      ResolveIsNormal(segments[1..], Push(stack, segments[0], allowAboveRoot), allowAboveRoot);
    }
  }

  lemma {:induction false} SegmentsHaveNoSlash(path: JsString)
    ensures forall p :: 0 <= p < |Segments(path)| ==> NoSlash(Segments(path)[p])
  {
    if path != [] {
      SegmentsHaveNoSlash(path[1..]);
    }
  }

  /** A normal stack resolves to itself. */
  lemma {:induction false} ResolveNormal(stack: seq<JsString>, done: nat, allowAboveRoot: bool)
    requires Normal(stack, allowAboveRoot) && done <= |stack|
    ensures Resolve(stack[done..], stack[..done], allowAboveRoot) == stack
    decreases |stack| - done
  {
    if done < |stack| {
      var segment := stack[done];
      assert Push(stack[..done], segment, allowAboveRoot) == stack[..done + 1] by {
        assert stack[..done + 1] == stack[..done] + [segment];
      }
      assert stack[done..][1..] == stack[done + 1..];
      ResolveNormal(stack, done + 1, allowAboveRoot);
    }
  }

  lemma {:induction false} SegmentsOfJoin(stack: seq<JsString>)
    requires Proper(stack) && stack != []
    ensures Segments(Join(stack)) == stack
  {
    var init, last := stack[..|stack| - 1], stack[|stack| - 1];
    SegmentsOfOne(last);
    assert stack == init + [last];
    if init != [] {
      SegmentsOfJoin(init);
      SegmentsAtSlash(Join(init), last);
    }
  }

  lemma {:induction false} ResolveConcat(a: seq<JsString>, b: seq<JsString>, stack: seq<JsString>, allowAboveRoot: bool)
    ensures Resolve(a + b, stack, allowAboveRoot) == Resolve(b, Resolve(a, stack, allowAboveRoot), allowAboveRoot)
    decreases |a|
  {
    if a == [] {
      assert a + b == b;
    } else {
      assert (a + b)[1..] == a[1..] + b;
      ResolveConcat(a[1..], b, Push(stack, a[0], allowAboveRoot), allowAboveRoot);
    }
  }

  /** Slashes in front of and behind a joined normal stack do not matter. */
  lemma NormalizedJoin(stack: seq<JsString>, allowAboveRoot: bool, leading: bool, trailing: bool)
    requires Normal(stack, allowAboveRoot)
    ensures var path := (if leading then [SLASH] else []) + Join(stack) + (if trailing then [SLASH] else []);
            Resolve(Segments(path), [], allowAboveRoot) == stack
  {
    hide Join;
    var front: JsString, back: JsString := if leading then [SLASH] else [], if trailing then [SLASH] else [];
    var text := Join(stack);
    assert Resolve(Segments(text), [], allowAboveRoot) == stack by {
      if stack == [] {
        EmptyJoin();
      } else {
        SegmentsOfJoin(stack);
        ResolveNormal(stack, 0, allowAboveRoot);
        assert stack[0..] == stack && stack[..0] == [];
      }
    }
    EmptySegment([], allowAboveRoot);
    EmptySegment(stack, allowAboveRoot);
    SegmentsAtSlash([], text);
    assert [] + [SLASH] + text == [SLASH] + text;
    ResolveConcat([[]], Segments(text), [], allowAboveRoot);
    var long := front + text;
    assert Resolve(Segments(long), [], allowAboveRoot) == stack by {
      assert !leading ==> long == text;
    }
    if trailing {
      SegmentsAtSlash(long, []);
      assert long + [SLASH] + [] == front + text + back;
      ResolveConcat(Segments(long), [[]], [], allowAboveRoot);
    } else {
      assert front + text + back == long;
    }
  }

  // ---------------------------------------------------------------- normalize

  function Normalized(path: JsString): JsString {
    if path == [] then HERE
    else
      var isAbsolute, trailing := path[0] == SLASH, path[|path| - 1] == SLASH;
      var text := NormalizedString(path, !isAbsolute);
      var named := if text == [] && !isAbsolute then HERE else text;
      var closed := if |named| > 0 && trailing then named + [SLASH] else named;
      if isAbsolute then [SLASH] + closed else closed
  }

  method Normalize(path: JsString) returns (r: JsString)
    ensures r == Normalized(path)
  {
    if |path| == 0 {
      return HERE;
    }
    var isAbsolute := path[0] == SLASH;
    var trailingSeparator := path[|path| - 1] == SLASH;
    r := NormalizeStringPosix(path, !isAbsolute);
    if |r| == 0 && !isAbsolute {
      r := HERE;
    }
    if |r| > 0 && trailingSeparator {
      r := r + [SLASH];
    }
    if isAbsolute {
      r := [SLASH] + r;
    }
  }

  /** A joined normal stack neither starts nor ends with a slash. */
  lemma {:induction false} JoinEdges(stack: seq<JsString>)
    requires Proper(stack) && stack != []
    ensures |Join(stack)| > 0 && Join(stack)[0] != SLASH && Join(stack)[|Join(stack)| - 1] != SLASH
  {
    var init, last := stack[..|stack| - 1], stack[|stack| - 1];
    assert last[0] in last && last[|last| - 1] in last;
    if init != [] {
      JoinEdges(init);
    }
  }

  lemma HereIsNormal()
    ensures Normalized(HERE) == HERE && Normalized(HERE + [SLASH]) == HERE + [SLASH] && Normalized([SLASH]) == [SLASH]
  {
    SegmentsOfOne(HERE);
    EmptySegment([], true);
    EmptySegment([], false);
    SegmentsAtSlash(HERE, []);
    SegmentsAtSlash([], []);
    assert HERE + [SLASH] + [] == HERE + [SLASH] && [] + [SLASH] + [] == [SLASH];
    EmptyJoin();
  }

  /** For every string: normalising a normalised path changes nothing. */
  lemma NormalizeIdempotent(path: JsString)
    ensures Normalized(Normalized(path)) == Normalized(path)
  {
    hide Join, Segments, Resolve;
    HereIsNormal();
    if path != [] {
      var isAbsolute, trailing := path[0] == SLASH, path[|path| - 1] == SLASH;
      var stack := Resolve(Segments(path), [], !isAbsolute);
      SegmentsHaveNoSlash(path);
      ResolveIsNormal(Segments(path), [], !isAbsolute);
      JoinNonEmpty(stack);
      if stack == [] {
        EmptyJoin();
      } else {
        JoinEdges(stack);
        NormalizedJoin(stack, !isAbsolute, isAbsolute, trailing);
        var r := (if isAbsolute then [SLASH] else []) + Join(stack) + (if trailing then [SLASH] else []);
        assert Normalized(path) == r;
      }
    }
  }

  lemma NothingToResolve()
    ensures Resolve(Segments(HERE), [], true) == [] && Resolve(Segments(HERE + [SLASH]), [], true) == []
    ensures Resolve(Segments([SLASH]), [], false) == []
  {
    SegmentsOfOne(HERE);
    EmptySegment([], false);
    SegmentsAtSlash(HERE, []);
    SegmentsAtSlash([], []);
    assert HERE + [SLASH] + [] == HERE + [SLASH] && [] + [SLASH] + [] == [SLASH];
  }

  /** What a path leads to is what its normal form leads to, absolute or not, and that is a normal stack. */
  lemma NormalizeKeepsMeaning(path: JsString)
    requires path != []
    ensures var absolute := path[0] == SLASH;
            var r := Normalized(path);
            && r != [] && (r[0] == SLASH <==> absolute)
            && Resolve(Segments(r), [], !absolute) == Resolve(Segments(path), [], !absolute)
            && Normal(Resolve(Segments(r), [], !absolute), !absolute)
  {
    hide Join, Segments, Resolve;
    HereIsNormal();
    var isAbsolute, trailing := path[0] == SLASH, path[|path| - 1] == SLASH;
    var stack := Resolve(Segments(path), [], !isAbsolute);
    SegmentsHaveNoSlash(path);
    ResolveIsNormal(Segments(path), [], !isAbsolute);
    JoinNonEmpty(stack);
    if stack == [] {
      EmptyJoin();
      NothingToResolve();
    } else {
      JoinEdges(stack);
      NormalizedJoin(stack, !isAbsolute, isAbsolute, trailing);
      var front: JsString, back: JsString := if isAbsolute then [SLASH] else [], if trailing then [SLASH] else [];
      assert Normalized(path) == front + Join(stack) + back;
    }
  }

  // ---------------------------------------------------------------- the rules, on text

  /** A name is neither empty nor "." nor "..", and has no slash. */
  predicate IsName(s: JsString) {
    s != [] && s != [46] && s != [46, 46] && 47 !in s
  }

  lemma Middle(x: seq<JsString>, middle: seq<JsString>, y: seq<JsString>, allowAboveRoot: bool)
    ensures Resolve(x + middle + y, [], allowAboveRoot)
         == Resolve(y, Resolve(middle, Resolve(x, [], allowAboveRoot), allowAboveRoot), allowAboveRoot)
  {
    hide Resolve;
    ResolveConcat(x, middle, [], allowAboveRoot);
    ResolveConcat(x + middle, y, [], allowAboveRoot);
  }

  lemma MiddleSegments(stack: seq<JsString>, name: JsString, allowAboveRoot: bool)
    requires IsName(name)
    ensures Resolve([[]], stack, allowAboveRoot) == Resolve([[46]], stack, allowAboveRoot) == stack
    ensures Resolve([name, [46, 46]], stack, allowAboveRoot) == stack
  {
    var none: seq<JsString>, empty: seq<JsString> := [], [[]];
    var dot: seq<JsString>, up: seq<JsString> := [[46]], [[46, 46]];
    assert empty + none == empty && dot + none == dot && up + none == up && [name] + up == [name, [46, 46]];
    ResolveCons([], none, stack, allowAboveRoot);
    ResolveCons([46], none, stack, allowAboveRoot);
    ResolveCons(name, up, stack, allowAboveRoot);
    ResolveCons([46, 46], none, stack + [name], allowAboveRoot);
    assert (stack + [name])[..|stack|] == stack;
  }

  /** Empty segments and "." do nothing anywhere, and a name followed by ".." does nothing either. */
  lemma SegmentRules(x: seq<JsString>, name: JsString, y: seq<JsString>, allowAboveRoot: bool)
    requires IsName(name)
    ensures Resolve(x + [[]] + y, [], allowAboveRoot) == Resolve(x + y, [], allowAboveRoot)
    ensures Resolve(x + [[46]] + y, [], allowAboveRoot) == Resolve(x + y, [], allowAboveRoot)
    ensures Resolve(x + [name, [46, 46]] + y, [], allowAboveRoot) == Resolve(x + y, [], allowAboveRoot)
  {
    hide Resolve;
    ResolveConcat(x, y, [], allowAboveRoot);
    MiddleSegments(Resolve(x, [], allowAboveRoot), name, allowAboveRoot);
    Middle(x, [[]], y, allowAboveRoot);
    Middle(x, [[46]], y, allowAboveRoot);
    Middle(x, [name, [46, 46]], y, allowAboveRoot);
  }

  lemma Between(a: JsString, s: JsString, b: JsString)
    ensures Segments(a + [47] + s + [47] + b) == Segments(a) + Segments(s) + Segments(b)
  {
    hide Segments;
    SegmentsAtSlash(a + [47] + s, b);
    SegmentsAtSlash(a, s);
  }

  /** On text: doubled slashes and "." between slashes disappear, and so does a name followed by "..". */
  lemma TextRules(a: JsString, name: JsString, b: JsString, allowAboveRoot: bool)
    requires IsName(name)
    ensures NormalizedString(a + [47, 47] + b, allowAboveRoot) == NormalizedString(a + [47] + b, allowAboveRoot)
    ensures NormalizedString(a + [47, 46, 47] + b, allowAboveRoot) == NormalizedString(a + [47] + b, allowAboveRoot)
    ensures NormalizedString(a + [47] + name + [47, 46, 46, 47] + b, allowAboveRoot)
         == NormalizedString(a + [47] + b, allowAboveRoot)
  {
    hide Segments, Resolve, Join, Push;
    var x, y := Segments(a), Segments(b);
    SegmentsAtSlash(a, b);
    SegmentRules(x, name, y, allowAboveRoot);
    Between(a, [], b);
    SegmentsOfOne([46]);
    Between(a, [46], b);
    SegmentsOfOne(name);
    SegmentsOfOne([46, 46]);
    Between(name, [46, 46], b);
    SegmentsAtSlash(a, name + [47] + [46, 46] + [47] + b);
    assert a + [47] + [] + [47] + b == a + [47, 47] + b;
    assert a + [47] + [46] + [47] + b == a + [47, 46, 47] + b;
    assert a + [47] + (name + [47] + [46, 46] + [47] + b) == a + [47] + name + [47, 46, 46, 47] + b;
    assert x + ([name] + [[46, 46]] + y) == x + [name, [46, 46]] + y;
    EmptySegment([], allowAboveRoot);
  }

  lemma NormalIsProper(stack: seq<JsString>, allowAboveRoot: bool)
    requires Normal(stack, allowAboveRoot)
    ensures Proper(stack)
  {
  }

  lemma ResolveWhole(stack: seq<JsString>, allowAboveRoot: bool)
    requires Normal(stack, allowAboveRoot)
    ensures Resolve(stack, [], allowAboveRoot) == stack
  {
    hide Resolve, Normal;
    ResolveNormal(stack, 0, allowAboveRoot);
    assert stack[0..] == stack && stack[..0] == [];
  }

  lemma UpsAreNormal(above: seq<JsString>, names: seq<JsString>)
    requires forall p :: 0 <= p < |above| ==> above[p] == [46, 46]
    requires forall p :: 0 <= p < |names| ==> IsName(names[p])
    ensures Normal(above + names, true) && Normal(names, false)
  {
  }

  lemma {:induction false} UpsVanish(ups: nat)
    ensures var above: seq<JsString> := seq(ups, _ => [46, 46]);
            Resolve(above, [], false) == []
  {
    var above: seq<JsString> := seq(ups, _ => [46, 46]);
    if ups > 0 {
      UpsVanish(ups - 1);
      var fewer: seq<JsString> := seq(ups - 1, _ => [46, 46]);
      assert above == [[46, 46]] + fewer;
      ResolveCons([46, 46], fewer, [], false);
    }
  }

  /** A path of ".." and then names only: kept as it is where ".." may lead above the root, else without the "..". */
  lemma UpsThenNames(ups: nat, names: seq<JsString>, allowAboveRoot: bool)
    requires forall p :: 0 <= p < |names| ==> IsName(names[p])
    ensures var above: seq<JsString> := seq(ups, _ => [46, 46]);
            && Resolve(above + names, [], true) == above + names
            && Resolve(above + names, [], false) == names
            && (above + names != [] ==>
                  NormalizedString(Join(above + names), allowAboveRoot)
                  == Join(if allowAboveRoot then above + names else names))
  {
    hide Resolve, Join, Segments, IsName, Normal, Proper;
    var above: seq<JsString> := seq(ups, _ => [46, 46]);
    UpsAreNormal(above, names);
    ResolveWhole(above + names, true);
    ResolveWhole(names, false);
    ResolveConcat(above, names, [], false);
    UpsVanish(ups);
    if above + names != [] {
      NormalIsProper(above + names, true);
      SegmentsOfJoin(above + names);
    }
  }

  /** How segments become text again. */
  lemma JoinedText(stack: seq<JsString>, last: JsString)
    ensures Join([last]) == last
    ensures stack != [] ==> Join(stack + [last]) == Join(stack) + [47] + last
  {
    assert (stack + [last])[..|stack|] == stack && [last][..0] == [];
  }

  lemma NormalizedParts(path: JsString, text: JsString)
    requires path != [] && text == NormalizedString(path, path[0] != 47)
    ensures var absolute, trailing := path[0] == 47, path[|path| - 1] == 47;
            Normalized(path) == (if absolute then [47] else [])
                                + (if text != [] then text else if absolute then [] else [46])
                                + (if trailing && (text != [] || !absolute) then [47] else [])
  {
    hide NormalizedString;
    var absolute, trailing := path[0] == 47, path[|path| - 1] == 47;
    var named: JsString := if text != [] then text else if absolute then [] else [46];
    var back: JsString := if trailing && (text != [] || !absolute) then [47] else [];
    assert Normalized(path) == if absolute then [47] + (named + back) else named + back by {
      assert named + [] == named;
    }
    assert [47] + named + back == [47] + (named + back) && [] + named + back == named + back;
  }

  /**
   * The normal form, in full: a slash in front if the path has one, the resolved segments joined by slashes ("." if
   * there are none and the path is relative), and a slash behind if the path has one and something other than the root
   * is left.
   */
  lemma NormalFormIs(path: JsString)
    ensures path == [] ==> Normalized(path) == [46]
    ensures path != [] ==>
              var absolute, trailing := path[0] == 47, path[|path| - 1] == 47;
              var left := Resolve(Segments(path), [], !absolute);
              Normalized(path) == (if absolute then [47] else [])
                                  + (if left != [] then Join(left) else if absolute then [] else [46])
                                  + (if trailing && (left != [] || !absolute) then [47] else [])
  {
    hide Join, Segments, Resolve;
    if path != [] {
      var absolute := path[0] == SLASH;
      var left := Resolve(Segments(path), [], !absolute);
      SegmentsHaveNoSlash(path);
      ResolveIsNormal(Segments(path), [], !absolute);
      NormalIsProper(left, !absolute);
      JoinNonEmpty(left);
      EmptyJoin();
      NormalizedParts(path, Join(left));
    }
  }
}
