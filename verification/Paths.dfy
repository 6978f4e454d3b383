// The path check of main/router/router.c and what it means: section 5.2.4 of
// RFC 3986, and walking the path from a directory.
module Paths {
  import opened Common

  const DOT: byte := 46
  const SLASH: byte := 47
  const BACKSLASH: byte := 92

  // The characters of a zero-terminated string.
  function CString(s: Str): (c: Str)
    ensures c <= s && 0 !in c && (|c| < |s| ==> s[|c|] == 0)
  {
    if s == [] || s[0] == 0 then [] else [s[0]] + CString(s[1..])
  }

  lemma {:induction false} CStringIs(s: Str, n: nat)
    requires n <= |s| && 0 !in s[..n] && (n < |s| ==> s[n] == 0)
    ensures CString(s) == s[..n]
  {
  }

  lemma CStringOfTerminated(s: Str, size: nat)
    requires size < |s| && s[size] == 0
    ensures CString(s) == CString(s[..size])
  {
    var c := CString(s[..size]);
    assert s[..size][..|c|] == s[..|c|];
    CStringIs(s, |c|);
  }

  lemma {:induction false} CStringAppend(a: Str, b: Str)
    ensures CString(a + b) == if 0 in a then CString(a) else a + CString(b)
  {
    if a == [] {
      assert a + b == b;
    } else {
      assert (a + b)[1..] == a[1..] + b;
      CStringAppend(a[1..], b);
    }
  }

  predicate MatchAt(s: Str, i: int, sub: Str) {
    0 <= i <= |s| - |sub| && s[i..i + |sub|] == sub
  }

  // strstr(s, sub) != NULL
  predicate Contains(s: Str, sub: Str) {
    exists i :: 0 <= i <= |s| && MatchAt(s, i, sub)
  }

  predicate EndsWith(s: Str, sub: Str) {
    |sub| <= |s| && s[|s| - |sub|..] == sub
  }

  // check_path
  predicate CheckPath(path: Str) {
    && path != [] && path[0] == SLASH && BACKSLASH !in path
    && !Contains(path, [SLASH, DOT, DOT, SLASH]) && !Contains(path, [SLASH, DOT, SLASH])
    && !EndsWith(path, [SLASH, DOT, DOT]) && !EndsWith(path, [SLASH, DOT])
  }

  // ------------------------------------------------------------------- segments

  function FirstSlash(s: Str): (k: nat)
    ensures k <= |s| && (k < |s| ==> s[k] == SLASH) && forall i :: 0 <= i < k ==> s[i] != SLASH
  {
    if s == [] || s[0] == SLASH then 0 else 1 + FirstSlash(s[1..])
  }

  // The '/'-separated segments of a path.
  function Segments(s: Str): seq<Str> {
    var k := FirstSlash(s);
    if k == |s| then [s] else [s[..k]] + Segments(s[k + 1..])
  }

  predicate IsDot(segment: Str) { segment == [DOT] || segment == [DOT, DOT] }

  predicate NoDotSegment(s: Str) {
    forall segment :: segment in Segments(s) ==> !IsDot(segment)
  }

  // The segment that starts at the beginning of s.
  function FirstSegment(s: Str): Str { s[..FirstSlash(s)] }

  // The slash at i is followed by a dot segment.
  predicate DotAfter(s: Str, i: nat) {
    i < |s| && s[i] == SLASH && IsDot(FirstSegment(s[i + 1..]))
  }

  lemma DotShift(s: Str, k: nat, i: nat)
    requires k <= i < |s|
    ensures DotAfter(s, i) <==> DotAfter(s[k..], i - k)
  {
  }

  lemma UpToFirstSlash(s: Str)
    ensures var k := FirstSlash(s);
      (forall i :: 0 <= i < k ==> !DotAfter(s, i))
      && (k < |s| ==> (DotAfter(s, k) <==> IsDot(FirstSegment(s[k + 1..]))))
  {
  }

  predicate NoDotAfter(s: Str) {
    forall i :: 0 <= i < |s| ==> !DotAfter(s, i)
  }

  // The dot segments behind the first slash are those of the rest.
  lemma DotsOfRest(s: Str)
    requires FirstSlash(s) < |s|
    ensures var rest := s[FirstSlash(s) + 1..];
      NoDotAfter(s) <==> !IsDot(FirstSegment(rest)) && NoDotAfter(rest)
  {
    hide DotAfter, FirstSegment, FirstSlash, IsDot;
    var k := FirstSlash(s);
    var rest := s[k + 1..];
    UpToFirstSlash(s);
    forall i | k < i < |s|
      ensures DotAfter(s, i) <==> DotAfter(rest, i - k - 1)
    {
      DotShift(s, k + 1, i);
    }
    if NoDotAfter(s) {
      forall j | 0 <= j < |rest|
        ensures !DotAfter(rest, j)
      {
        assert !DotAfter(s, j + k + 1);
      }
    }
  }

  lemma {:induction false} SegmentsByPosition(s: Str)
    ensures NoDotSegment(s) <==> !IsDot(FirstSegment(s)) && NoDotAfter(s)
  {
    hide IsDot, DotAfter;
    var k := FirstSlash(s);
    if k == |s| {
      assert s[..k] == s && s in Segments(s);
      NoSlashNoDotAfter(s);
    } else {
      var rest := s[k + 1..];
      SegmentsByPosition(rest);
      DotsOfRest(s);
      assert forall segment :: segment in Segments(s) <==> segment == s[..k] || segment in Segments(rest);
    }
  }

  lemma NoSlashNoDotAfter(s: Str)
    requires FirstSlash(s) == |s|
    ensures forall i :: 0 <= i < |s| ==> !DotAfter(s, i)
  {
  }

  lemma FirstSlashIs(s: Str, k: nat)
    requires k <= |s| && (k < |s| ==> s[k] == SLASH) && forall i :: 0 <= i < k ==> s[i] != SLASH
    ensures FirstSlash(s) == k
  {
  }

  // The two substrings and the two suffixes are the two kinds of dot segment.
  lemma DotByMatch(s: Str, i: nat)
    requires i < |s|
    ensures DotAfter(s, i) <==>
      || MatchAt(s, i, [SLASH, DOT, SLASH]) || (i == |s| - 2 && s[i..] == [SLASH, DOT])
      || MatchAt(s, i, [SLASH, DOT, DOT, SLASH]) || (i == |s| - 3 && s[i..] == [SLASH, DOT, DOT])
  {
    var rest := s[i + 1..];
    if |rest| >= 1 && rest[0] == DOT && (|rest| == 1 || rest[1] == SLASH) {
      FirstSlashIs(rest, 1);
    }
    if |rest| >= 2 && rest[0] == DOT && rest[1] == DOT && (|rest| == 2 || rest[2] == SLASH) {
      FirstSlashIs(rest, 2);
    }
    var k := FirstSlash(rest);
    assert rest[..k] == [DOT] <==> k == 1 && rest[0] == DOT;
    assert rest[..k] == [DOT, DOT] <==> k == 2 && rest[0] == DOT && rest[1] == DOT;
    // The four patterns, byte by byte.
    assert s[i..] == [s[i]] + rest;
    if |rest| >= 2 { assert s[i..i + 3] == [s[i], rest[0], rest[1]]; }
    if |rest| >= 3 { assert s[i..i + 4] == [s[i], rest[0], rest[1], rest[2]]; }
  }

  // One of the four patterns check_path looks for.
  predicate HasPattern(p: Str) {
    || Contains(p, [SLASH, DOT, DOT, SLASH]) || Contains(p, [SLASH, DOT, SLASH])
    || EndsWith(p, [SLASH, DOT, DOT]) || EndsWith(p, [SLASH, DOT])
  }

  lemma DotMeansPattern(p: Str, i: nat)
    requires i < |p| && DotAfter(p, i)
    ensures HasPattern(p)
  {
    DotByMatch(p, i);
  }

  lemma PatternMeansDot(p: Str) returns (i: nat)
    requires HasPattern(p)
    ensures i < |p| && DotAfter(p, i)
  {
    if k: int :| 0 <= k <= |p| && MatchAt(p, k, [SLASH, DOT, DOT, SLASH]) {
      i := k;
    } else if k: int :| 0 <= k <= |p| && MatchAt(p, k, [SLASH, DOT, SLASH]) {
      i := k;
    } else if EndsWith(p, [SLASH, DOT, DOT]) {
      i := |p| - 3;
      assert p[i..] == [SLASH, DOT, DOT];
    } else {
      assert EndsWith(p, [SLASH, DOT]);
      i := |p| - 2;
      assert p[i..] == [SLASH, DOT];
    }
    DotByMatch(p, i);
  }

  lemma CheckedMeansNoDotSegment(p: Str)
    ensures CheckPath(p) <==> p != [] && p[0] == SLASH && BACKSLASH !in p && NoDotSegment(p)
  {
    hide NoDotSegment, DotAfter, Contains, EndsWith;
    if p != [] && p[0] == SLASH {
      SegmentsByPosition(p);
      assert FirstSegment(p) == [];
      if HasPattern(p) {
        var i := PatternMeansDot(p);
      }
      forall i | 0 <= i < |p| && DotAfter(p, i)
        ensures HasPattern(p)
      {
        DotMeansPattern(p, i);
      }
    }
  }

  // ------------------------------------------------------- remove_dot_segments

  // Where the last segment of the output buffer starts, with its slash.
  function LastSlash(s: Str): (k: nat)
    ensures k <= |s|
  {
    if s == [] then 0 else if s[|s| - 1] == SLASH then |s| - 1 else LastSlash(s[..|s| - 1])
  }

  predicate StartsWith(s: Str, prefix: Str) { |prefix| <= |s| && s[..|prefix|] == prefix }

  // The length of the first path segment: its slash, if any, and what follows up
  // to the next slash.
  function SegmentLength(s: Str): (n: nat)
    requires s != []
    ensures 0 < n <= |s|
  {
    if s[0] == SLASH then 1 + FirstSlash(s[1..]) else FirstSlash(s)
  }

  // One pass of steps 2A to 2E of section 5.2.4 of RFC 3986: the two buffers after
  // it.
  function Reduced(input: Str, output: Str): (r: (Str, Str))
    requires input != []
    ensures |r.0| < |input| && |r.0| + |r.1| <= |input| + |output|
  {
    if StartsWith(input, [DOT, DOT, SLASH]) then (input[3..], output)
    else if StartsWith(input, [DOT, SLASH]) then (input[2..], output)
    else if StartsWith(input, [SLASH, DOT, SLASH]) then ([SLASH] + input[3..], output)
    else if input == [SLASH, DOT] then ([SLASH], output)
    else if StartsWith(input, [SLASH, DOT, DOT, SLASH]) then ([SLASH] + input[4..], output[..LastSlash(output)])
    else if input == [SLASH, DOT, DOT] then ([SLASH], output[..LastSlash(output)])
    else if input == [DOT] || input == [DOT, DOT] then ([], output)
    else
      var n := SegmentLength(input);
      (input[n..], output + input[..n])
  }

  function RemoveDotSegments(input: Str, output: Str): Str
    decreases |input|
  {
    if input == [] then output
    else
      var r := Reduced(input, output);
      RemoveDotSegments(r.0, r.1)
  }

  // Steps 2B and 2C apply exactly to an input that begins with a dot segment.
  lemma DotStep(input: Str)
    requires input != [] && input[0] == SLASH
    ensures DotAfter(input, 0) <==>
      || StartsWith(input, [SLASH, DOT, SLASH]) || input == [SLASH, DOT]
      || StartsWith(input, [SLASH, DOT, DOT, SLASH]) || input == [SLASH, DOT, DOT]
  {
    DotByMatch(input, 0);
    assert input[0..] == input;
  }

  lemma {:induction false} NeverLonger(input: Str, output: Str)
    ensures |RemoveDotSegments(input, output)| <= |output| + |input|
    decreases |input|
  {
    hide Reduced;
    if input != [] {
      var r := Reduced(input, output);
      NeverLonger(r.0, r.1);
    }
  }

  // Steps 2B and 2C make the path shorter.
  lemma DotShortens(input: Str, output: Str)
    requires input != [] && input[0] == SLASH && DotAfter(input, 0)
    ensures |RemoveDotSegments(input, output)| < |output| + |input|
  {
    var r := Reduced(input, output);
    assert |r.0| + |r.1| < |input| + |output| by {
      DotStep(input);
      hide DotAfter;
    }
    hide Reduced, DotAfter;
    NeverLonger(r.0, r.1);
  }

  // After a first segment that is no dot segment, the remaining input begins with
  // the next slash, and it has the dot segments that the input had.
  lemma DotsLaterOn(input: Str)
    requires input != [] && input[0] == SLASH && !DotAfter(input, 0)
    ensures var rest := input[SegmentLength(input)..];
      && (rest != [] ==> rest[0] == SLASH)
      && ((exists i :: 0 <= i < |input| && DotAfter(input, i)) <==> (exists i :: 0 <= i < |rest| && DotAfter(rest, i)))
  {
    var n := SegmentLength(input);
    var rest := input[n..];
    assert rest != [] ==> rest[0] == SLASH;
    hide DotAfter, SegmentLength;
    forall i | 0 <= i < |input| && DotAfter(input, i)
      ensures i >= n && DotAfter(rest, i - n)
    {
      DotBehindSegment(input, i);
      DotShift(input, n, i);
    }
    forall i | 0 <= i < |rest| && DotAfter(rest, i)
      ensures DotAfter(input, i + n)
    {
      DotShift(input, n, i + n);
    }
  }

  lemma DotBehindSegment(input: Str, i: nat)
    requires input != [] && input[0] == SLASH && 0 < i < |input| && DotAfter(input, i)
    ensures SegmentLength(input) <= i
  {
  }

  // Step 2E.
  lemma MoveSegment(input: Str, output: Str)
    requires input != [] && input[0] == SLASH && !DotAfter(input, 0)
    ensures var n := SegmentLength(input);
      RemoveDotSegments(input, output) == RemoveDotSegments(input[n..], output + input[..n])
  {
    DotStep(input);
  }

  lemma {:induction false} ShorterWithDots(input: Str, output: Str)
    requires input != [] && input[0] == SLASH && exists i :: 0 <= i < |input| && DotAfter(input, i)
    ensures |RemoveDotSegments(input, output)| < |output| + |input|
    decreases |input|
  {
    hide RemoveDotSegments, DotAfter;
    if DotAfter(input, 0) {
      DotShortens(input, output);
    } else {
      var n := SegmentLength(input);
      hide SegmentLength;
      DotsLaterOn(input);
      MoveSegment(input, output);
      ShorterWithDots(input[n..], output + input[..n]);
    }
  }

  lemma {:induction false} UnchangedWithoutDots(input: Str, output: Str)
    requires input != [] ==> input[0] == SLASH
    requires forall i :: 0 <= i < |input| ==> !DotAfter(input, i)
    ensures RemoveDotSegments(input, output) == output + input
    decreases |input|
  {
    if input == [] {
      assert output + input == output;
    } else {
      hide RemoveDotSegments, DotAfter, SegmentLength;
      var rest, first := input[SegmentLength(input)..], input[..SegmentLength(input)];
      assert !DotAfter(input, 0);
      MoveSegment(input, output);
      DotsLaterOn(input);
      assert forall i :: 0 <= i < |rest| ==> !DotAfter(rest, i);
      UnchangedWithoutDots(rest, output + first);
      Associates(output, first, rest);
      assert input == first + rest;
    }
  }

  lemma Associates(a: Str, b: Str, c: Str)
    ensures a + b + c == a + (b + c)
  {
  }

  // check_path holds exactly for the absolute paths without a backslash that
  // remove_dot_segments leaves as they are.
  lemma CheckedExactlyWhenNormal(p: Str)
    ensures CheckPath(p) <==> p != [] && p[0] == SLASH && BACKSLASH !in p && RemoveDotSegments(p, []) == p
  {
    CheckedMeansNoDotSegment(p);
    if p != [] && p[0] == SLASH {
      SegmentsByPosition(p);
      if exists i :: 0 <= i < |p| && DotAfter(p, i) {
        ShorterWithDots(p, []);
      } else {
        UnchangedWithoutDots(p, []);
      }
    }
  }

  // --------------------------------------------------------------- local files

  // root_router's loop over the leading slashes of the path.
  method StripSlashes(path: Str) returns (relPath: Str)
    ensures relPath == Stripped(path)
  {
    var i := 0;
    while i < |path| && path[i] == SLASH
      invariant i <= |path| && Stripped(path) == Stripped(path[i..])
    {
      i := i + 1;
    }
    relPath := path[i..];
  }

  function Stripped(path: Str): Str {
    if path != [] && path[0] == SLASH then Stripped(path[1..]) else path
  }

  // Walking the segments from a directory `depth` levels below the one that may
  // not be left.
  predicate StaysBelow(segments: seq<Str>, depth: nat) {
    segments == [] ||
    if segments[0] == [] || segments[0] == [DOT] then StaysBelow(segments[1..], depth)
    else if segments[0] == [DOT, DOT] then depth > 0 && StaysBelow(segments[1..], depth - 1)
    else StaysBelow(segments[1..], depth + 1)
  }

  // One segment leads down, up, or nowhere.
  function Weight(segment: Str): int {
    if segment == [] || segment == [DOT] then 0 else if segment == [DOT, DOT] then -1 else 1
  }

  function Net(segments: seq<Str>): int {
    if segments == [] then 0 else Weight(segments[0]) + Net(segments[1..])
  }

  // A walk stays below exactly if no beginning of it leads up more often than down.
  lemma {:induction false} StaysBelowExactlyWhen(segments: seq<Str>, depth: nat)
    ensures StaysBelow(segments, depth) <==> forall k :: 0 <= k <= |segments| ==> depth + Net(segments[..k]) >= 0
    decreases |segments|
  {
    if segments == [] {
      assert segments[..0] == [];
    } else {
      var rest, next := segments[1..], depth + Weight(segments[0]);
      forall k | 0 < k <= |segments|
        ensures depth + Net(segments[..k]) == next + Net(rest[..k - 1])
      {
        assert segments[..k][1..] == rest[..k - 1];
      }
      assert segments[..0] == [] && rest[..0] == [];
      if next >= 0 {
        StaysBelowExactlyWhen(rest, next);
        if forall k :: 0 <= k <= |segments| ==> depth + Net(segments[..k]) >= 0 {
          forall k | 0 <= k <= |rest|
            ensures next + Net(rest[..k]) >= 0
          {
            assert depth + Net(segments[..k + 1]) == next + Net(rest[..k]);
          }
        }
      } else {
        assert depth + Net(segments[..1]) < 0;
      }
    }
  }

  // Leading slashes lead nowhere: the walk from the starting directory may be
  // judged by the path of the request.
  lemma {:induction false} StrippedWalksAlike(p: Str, depth: nat)
    ensures StaysBelow(Segments(p), depth) <==> StaysBelow(Segments(Stripped(p)), depth)
    decreases |p|
  {
    if p != [] && p[0] == SLASH {
      FirstSlashIs(p, 0);
      assert Segments(p) == [[]] + Segments(p[1..]);
      assert Segments(p)[1..] == Segments(p[1..]);
      StrippedWalksAlike(p[1..], depth);
    }
  }

  lemma {:induction false} NetWithoutDots(segments: seq<Str>)
    requires forall segment :: segment in segments ==> !IsDot(segment)
    ensures Net(segments) >= 0
    decreases |segments|
  {
    if segments != [] {
      assert segments[0] in segments;
      NetWithoutDots(segments[1..]);
    }
  }

  lemma {:induction false} StrippedHasNoDots(p: Str)
    requires forall i :: 0 <= i < |p| ==> !DotAfter(p, i)
    requires p != [] && p[0] == SLASH
    ensures NoDotSegment(Stripped(p)) && (Stripped(p) != [] ==> Stripped(p)[0] != SLASH)
  {
    var rest := p[1..];
    forall i | 0 <= i < |rest|
      ensures !DotAfter(rest, i)
    {
      DotShift(p, 1, i + 1);
    }
    if rest != [] && rest[0] == SLASH {
      StrippedHasNoDots(rest);
    } else {
      assert !DotAfter(p, 0);
      SegmentsByPosition(rest);
    }
  }

  // The file name root_router opens for a checked path is relative, has no dot
  // segment, and does not lead out of the starting directory.
  lemma LocalFileStaysBelow(p: Str)
    requires CheckPath(p)
    ensures var r := Stripped(p);
      (r != [] ==> r[0] != SLASH) && NoDotSegment(r) && StaysBelow(Segments(r), 0)
  {
    CheckedMeansNoDotSegment(p);
    SegmentsByPosition(p);
    StrippedHasNoDots(p);
    var segments := Segments(Stripped(p));
    forall k | 0 <= k <= |segments|
      ensures Net(segments[..k]) >= 0
    {
      NetWithoutDots(segments[..k]);
    }
    StaysBelowExactlyWhen(segments, 0);
  }
}
