// Route selection: main/config/routes.c and root_router of main/router/router.c.
module Routes {
  import opened Common
  import opened Paths

  // A compiled pattern, by number; the matcher itself is not shown.
  type Pattern = nat

  datatype Route = Route(path: Str, regex: Option<Pattern>)

  // Start and end of a captured substring.
  datatype Span = Span(start: nat, end: nat) {
    function Length(): int { end - start }
  }

  // pcre2_match: no match, an error, or the captures up to the highest numbered
  // one that took part, the whole match first. There are none if the vector was
  // too small.
  datatype Verdict = NoMatch | MatchError | Matched(spans: seq<Span>)

  type Matcher = (Pattern, Str) -> Verdict

  // The stripped path of a match: NULL, a string, or whatever a scan that has read
  // outside the subject ends with.
  datatype StrippedPath = NotSet | Found(path: Str) | Outside

  // struct route_match
  datatype RouteMatch = RouteMatch(route: Option<Route>, strippedPath: StrippedPath)

  const NO_MATCH := RouteMatch(None, NotSet)

  predicate DistinctKeys(routes: seq<Route>) {
    forall i, j :: 0 <= i < j < |routes| ==> routes[i].path != routes[j].path
  }

  // ---------------------------------------------------------------- what it means

  function VerdictOn(r: Route, s: Str, m: Matcher): Verdict {
    match r.regex
    case None => NoMatch
    case Some(re) => m(re, s)
  }

  // The route whose key is the path.
  function Exact(routes: seq<Route>, s: Str): (r: Option<Route>)
    ensures r.Some? ==> r.value in routes && r.value.path == s
    ensures r.None? ==> forall q :: q in routes ==> q.path != s
  {
    if routes == [] then None
    else if routes[0].path == s then Some(routes[0])
    else Exact(routes[1..], s)
  }

  // The earliest inserted regex route that matches.
  function EarliestMatch(routes: seq<Route>, s: Str, m: Matcher): Option<Route> {
    if routes == [] then None
    else if VerdictOn(routes[0], s, m).Matched? then Some(routes[0])
    else EarliestMatch(routes[1..], s, m)
  }

  function SimpleRule(routes: seq<Route>, s: Str, m: Matcher): Option<Route> {
    if Exact(routes, s).Some? then Exact(routes, s) else EarliestMatch(routes, s, m)
  }

  // The first route that is neither skipped nor without a match.
  function Decisive(routes: seq<Route>, s: Str, m: Matcher): (k: nat)
    ensures k <= |routes|
    ensures forall i :: 0 <= i < k ==> VerdictOn(routes[i], s, m) == NoMatch
    ensures k < |routes| ==> VerdictOn(routes[k], s, m) != NoMatch
  {
    if routes == [] || VerdictOn(routes[0], s, m) != NoMatch then 0 else 1 + Decisive(routes[1..], s, m)
  }

  // A matching error comes before the first match.
  predicate ErrorFirst(routes: seq<Route>, s: Str, m: Matcher) {
    exists i, j :: 0 <= i < j < |routes|
      && VerdictOn(routes[i], s, m).MatchError? && VerdictOn(routes[j], s, m).Matched?
      && forall k :: 0 <= k < j ==> !VerdictOn(routes[k], s, m).Matched?
  }

  // The last slash at or before an offset; the byte behind the end is no slash.
  predicate LastSlashAt(s: Str, off: int, k: nat) {
    k <= off && k < |s| && s[k] == SLASH && forall i :: k < i <= off && i < |s| ==> s[i] != SLASH
  }

  // Where the part behind the last capture's beginning starts in the subject, if
  // the match starts there too.
  function Offset(spans: seq<Span>): int
    requires spans != []
  {
    spans[0].Length() - spans[|spans| - 1].Length()
  }

  // The backward scan starts in the subject, its terminator included, and there is
  // a slash for it to meet.
  predicate ScanStaysInside(s: Str, spans: seq<Span>)
    requires spans != []
  {
    0 <= Offset(spans) <= |s| && exists k :: 0 <= k <= Offset(spans) && k < |s| && s[k] == SLASH
  }

  // The lengths of the whole match and of the last capture are those of parts of
  // the subject, the second one's part of the first one's.
  predicate SensibleLengths(s: Str, spans: seq<Span>)
    requires spans != []
  {
    0 <= spans[|spans| - 1].Length() <= spans[0].Length() <= |s|
  }

  // The scan begins where the last capture does exactly if the whole match is as
  // long as the capture's end is far from the beginning of the subject, as it is
  // for a match from the beginning that ends with the capture.
  lemma ScanBeginsAtCaptureExactlyWhen(spans: seq<Span>)
    requires |spans| > 1
    ensures var whole, last := spans[0], spans[|spans| - 1];
      && (Offset(spans) == last.start <==> whole.end - whole.start == last.end)
      && (whole.start == 0 && whole.end == last.end ==> Offset(spans) == last.start)
  {
  }

  // Then the module gets the subject from the last slash on that is not behind the
  // capture's beginning; if the capture begins with a slash, it is what was captured
  // and what follows.
  lemma StrippedFromCapture(s: Str, spans: seq<Span>, path: StrippedPath, k: nat)
    requires |spans| > 1 && StrippedBy(s, spans, path)
    requires var whole, last := spans[0], spans[|spans| - 1];
      && whole.end - whole.start == last.end
      && k <= last.start <= |s| && k < |s| && s[k] == SLASH
      && forall i :: k < i <= last.start && i < |s| ==> s[i] != SLASH
    ensures path == Found(s[k..])
  {
    ScanBeginsAtCaptureExactlyWhen(spans);
    var j: nat :| LastSlashAt(s, Offset(spans), j) && path.path == s[j..];
    assert s[j] == SLASH && s[k] == SLASH;
  }

  // "/a/b/c", matched by "b/(.*)": the match does not start at the beginning, and
  // the module gets "/b/c", although the last slash ahead of the capture "c" is that
  // of "/c".
  lemma UnanchoredMatch(path: StrippedPath)
    requires StrippedBy([SLASH, 97, SLASH, 98, SLASH, 99], [Span(3, 6), Span(5, 6)], path)
    ensures path == Found([SLASH, 98, SLASH, 99])
  {
    var s: Str, spans := [SLASH, 97, SLASH, 98, SLASH, 99], [Span(3, 6), Span(5, 6)];
    assert Offset(spans) == 2 && s[2] == SLASH;
    var j: nat :| LastSlashAt(s, Offset(spans), j) && path.path == s[j..];
    assert s[2..] == [SLASH, 98, SLASH, 99];
  }

  // For sensible lengths the scan ends in the subject exactly if there is a slash
  // at or before the offset.
  lemma StaysInsideExactlyWhen(s: Str, spans: seq<Span>)
    requires spans != [] && SensibleLengths(s, spans)
    ensures ScanStaysInside(s, spans) <==> SLASH in s[..Min(Offset(spans) + 1, |s|)]
    ensures ScanStaysInside(s, spans) <==> exists k: nat :: LastSlashAt(s, Offset(spans), k)
  {
    var off := Offset(spans);
    if SLASH in s[..Min(off + 1, |s|)] {
      var k := SlashAhead(s, off);
      assert s[k] == SLASH;
    }
    if k :| 0 <= k <= off && k < |s| && s[k] == SLASH {
      assert s[..Min(off + 1, |s|)][k] == SLASH;
    }
  }

  lemma {:induction false} SlashAhead(s: Str, off: nat) returns (k: nat)
    requires SLASH in s[..Min(off + 1, |s|)]
    ensures LastSlashAt(s, off, k)
  {
    if off < |s| && s[off] == SLASH {
      k := off;
    } else {
      assert off < |s| ==> s[..off + 1] == s[..off] + [s[off]];
      k := SlashAhead(s, off - 1);
    }
  }

  // An absolute path leaves the scan nothing to miss.
  lemma AbsoluteStaysInside(s: Str, spans: seq<Span>)
    requires s != [] && s[0] == SLASH && spans != [] && SensibleLengths(s, spans)
    ensures ScanStaysInside(s, spans)
  {
    assert s[0] == SLASH;
  }

  // The stripped path of a match with these captures.
  ghost predicate StrippedBy(s: Str, spans: seq<Span>, path: StrippedPath) {
    if spans == [] then path == NotSet
    else if |spans| == 1 then path == Found([SLASH])
    else if !ScanStaysInside(s, spans) then path == Outside
    else path.Found? && exists k: nat :: LastSlashAt(s, Offset(spans), k) && path.path == s[k..]
  }

  // What a module is given is an absolute path.
  lemma StrippedIsAbsolute(s: Str, spans: seq<Span>, path: StrippedPath)
    requires StrippedBy(s, spans, path) && path.Found?
    ensures path.path != [] && path.path[0] == SLASH
  {
  }

  // What the loop over the regex routes leaves in the match.
  ghost predicate MatchedBy(routes: seq<Route>, s: Str, m: Matcher, found: RouteMatch) {
    var k := Decisive(routes, s, m);
    if k < |routes| && VerdictOn(routes[k], s, m).Matched?
    then found.route == Some(routes[k]) && StrippedBy(s, VerdictOn(routes[k], s, m).spans, found.strippedPath)
    else found == NO_MATCH
  }

  // "x", matched as a whole by a pattern that captures all of it: the lengths make
  // sense, and the scan leaves the subject. The path check would refuse "x".
  lemma ScanLeavesSubject()
    ensures var s: Str, spans := [120], [Span(0, 1), Span(0, 1)];
      SensibleLengths(s, spans) && StrippedBy(s, spans, Outside) && !CheckPath(s)
  {
  }

  // ------------------------------------------------------------------ the methods

  class RouteTable {
    var routes: seq<Route>

    constructor ()
      ensures routes == []
    {
      routes := [];
    }

    // insert_route
    method InsertRoute(path: Str, regex: Option<Pattern>)
      modifies this
      ensures routes == old(routes) + [Route(path, regex)]
      ensures old(DistinctKeys(routes)) && Exact(old(routes), path).None? ==> DistinctKeys(routes)
    {
      routes := routes + [Route(path, regex)];
    }

    // get_route
    method GetRoute(path: Str, rm: RouteMatch) returns (ret: int, found: RouteMatch)
      ensures ret == 0 <==> Exact(routes, path).Some?
      ensures ret == 0 ==> found == RouteMatch(Exact(routes, path), Found([SLASH]))
      ensures ret != 0 ==> ret == -1 && found == rm
    {
      var r := Exact(routes, path);
      if r.None? {
        return -1, rm;
      }
      return 0, RouteMatch(r, Found([SLASH]));
    }

    // match_route; its return value is not used by root_router.
    method MatchRoute(s: Str, m: Matcher, rm: RouteMatch) returns (found: RouteMatch)
      requires rm == NO_MATCH
      ensures MatchedBy(routes, s, m, found)
    {
      found := rm;
      var i := 0;
      while i < |routes|
        invariant i <= |routes| && found == NO_MATCH
        invariant forall k :: 0 <= k < i ==> VerdictOn(routes[k], s, m) == NoMatch
      {
        var r := routes[i];
        if r.regex.Some? {
          var verdict := m(r.regex.value, s);
          if verdict.MatchError? {
            return;
          }
          if verdict.Matched? {
            found := found.(route := Some(r));
            if |verdict.spans| > 0 {
              var stripped := Strip(s, verdict.spans);
              found := found.(strippedPath := stripped);
            }
            return;
          }
        }
        i := i + 1;
      }
    }

    // The choice of root_router between the routes; None means a local file.
    method Choose(url: Str, m: Matcher) returns (found: RouteMatch)
      ensures found.route == Picked(routes, url, m)
      ensures if Exact(routes, url).Some? then found.strippedPath == Found([SLASH])
              else MatchedBy(routes, url, m, found)
      ensures found.route == SimpleRule(routes, url, m)
         <==> (Exact(routes, url).Some? || !ErrorFirst(routes, url, m))
    {
      var ret;
      ret, found := GetRoute(url, NO_MATCH);
      if ret == -1 {
        found := MatchRoute(url, m, found);
      }
      PicksBySimpleRuleExactlyWhen(routes, url, m);
    }
  }

  // The end of the path that is handed to the module. Where the source would read
  // outside the subject, the scan is given up.
  method Strip(s: Str, spans: seq<Span>) returns (path: StrippedPath)
    requires spans != []
    ensures StrippedBy(s, spans, path)
  {
    if |spans| == 1 {
      return Found([SLASH]);
    }
    var at := Offset(spans);
    if at < 0 || at > |s| {
      return Outside;
    }
    ghost var off := at;
    while at >= 0 && (at == |s| || s[at] != SLASH)
      invariant -1 <= at <= off <= |s|
      invariant forall i :: at < i <= off && i < |s| ==> s[i] != SLASH
    {
      at := at - 1;
    }
    if at < 0 {
      return Outside;
    }
    assert LastSlashAt(s, off, at);
    path := Found(s[at..]);
  }

  // The route root_router picks.
  function Picked(routes: seq<Route>, s: Str, m: Matcher): Option<Route> {
    var k := Decisive(routes, s, m);
    if Exact(routes, s).Some? then Exact(routes, s)
    else if k < |routes| && VerdictOn(routes[k], s, m).Matched? then Some(routes[k])
    else None
  }

  // The loop over the routes stops at this one, and picks it: it has a pattern that
  // matches, and the routes before it have none, or one that does not match.
  predicate Chosen(routes: seq<Route>, s: Str, m: Matcher, k: nat)
    requires k < |routes|
  {
    && routes[k].regex.Some? && m(routes[k].regex.value, s).Matched?
    && forall i :: 0 <= i < k ==> routes[i].regex.None? || m(routes[i].regex.value, s) == NoMatch
  }

  // Without a key equal to the path, a route is picked exactly if it is chosen so;
  // with one, the first route of this key is.
  lemma PickedExactlyWhen(routes: seq<Route>, s: Str, m: Matcher)
    ensures (forall r :: r in routes ==> r.path != s) ==>
      && (forall k :: 0 <= k < |routes| && Chosen(routes, s, m, k) ==>
           Decisive(routes, s, m) == k && Picked(routes, s, m) == Some(routes[k]))
      && (Picked(routes, s, m).Some? <==> exists k :: 0 <= k < |routes| && Chosen(routes, s, m, k))
    ensures forall k :: 0 <= k < |routes| && routes[k].path == s && (forall i :: 0 <= i < k ==> routes[i].path != s) ==>
      Picked(routes, s, m) == Some(routes[k])
  {
    var d := Decisive(routes, s, m);
    forall k | 0 <= k < |routes| && Chosen(routes, s, m, k)
      ensures d == k
    {
      assert forall i :: 0 <= i < k ==> VerdictOn(routes[i], s, m) == NoMatch;
    }
    if Exact(routes, s).None? && Picked(routes, s, m).Some? {
      assert Chosen(routes, s, m, d);
    }
    forall k | 0 <= k < |routes| && routes[k].path == s && forall i :: 0 <= i < k ==> routes[i].path != s
      ensures Exact(routes, s) == Some(routes[k])
    {
      ExactIs(routes, s, k);
    }
  }

  lemma {:induction false} ExactIs(routes: seq<Route>, s: Str, k: nat)
    requires k < |routes| && routes[k].path == s && forall i :: 0 <= i < k ==> routes[i].path != s
    ensures Exact(routes, s) == Some(routes[k])
  {
    if k > 0 {
      ExactIs(routes[1..], s, k - 1);
    }
  }

  lemma {:induction false} EarliestMatchIs(routes: seq<Route>, s: Str, m: Matcher, j: nat)
    requires j < |routes| && VerdictOn(routes[j], s, m).Matched?
    requires forall k :: 0 <= k < j ==> !VerdictOn(routes[k], s, m).Matched?
    ensures EarliestMatch(routes, s, m) == Some(routes[j])
  {
    if j > 0 {
      EarliestMatchIs(routes[1..], s, m, j - 1);
    }
  }

  lemma {:induction false} EarliestMatchAt(routes: seq<Route>, s: Str, m: Matcher) returns (j: nat)
    requires EarliestMatch(routes, s, m).Some?
    ensures j < |routes| && VerdictOn(routes[j], s, m).Matched?
    ensures forall k :: 0 <= k < j ==> !VerdictOn(routes[k], s, m).Matched?
  {
    if VerdictOn(routes[0], s, m).Matched? {
      j := 0;
    } else {
      j := EarliestMatchAt(routes[1..], s, m);
      j := j + 1;
    }
  }

  // root_router picks by the simple rule, exact key first and else the earliest
  // match, exactly unless a matching error comes before the first match and no
  // key is exact.
  lemma PicksBySimpleRuleExactlyWhen(routes: seq<Route>, s: Str, m: Matcher)
    ensures Picked(routes, s, m) == SimpleRule(routes, s, m)
       <==> (Exact(routes, s).Some? || !ErrorFirst(routes, s, m))
  {
    var k := Decisive(routes, s, m);
    if Exact(routes, s).None? {
      if EarliestMatch(routes, s, m).Some? {
        var j := EarliestMatchAt(routes, s, m);
        EarliestMatchIs(routes, s, m, j);
        assert k <= j;
        if k < j {
          assert VerdictOn(routes[k], s, m).MatchError?;
        }
      } else if ErrorFirst(routes, s, m) {
        var i, j :| 0 <= i < j < |routes| && VerdictOn(routes[i], s, m).MatchError?
          && VerdictOn(routes[j], s, m).Matched? && forall k :: 0 <= k < j ==> !VerdictOn(routes[k], s, m).Matched?;
        EarliestMatchIs(routes, s, m, j);
      } else if k < |routes| && VerdictOn(routes[k], s, m).Matched? {
        EarliestMatchIs(routes, s, m, k);
      }
    }
  }

  // A matcher whose first pattern always fails with an error.
  function FirstFails(re: Pattern, s: Str): Verdict {
    if re == 0 then MatchError else Matched([Span(0, |s|)])
  }

  // With an error in the first route and a match in the second, the rule picks the
  // second, and the router none.
  lemma ErrorHidesMatch(url: Str, first: Route, second: Route)
    requires first.regex == Some(0) && second.regex == Some(1) && first.path != url && second.path != url
    ensures SimpleRule([first, second], url, FirstFails) == Some(second)
    ensures Picked([first, second], url, FirstFails) == None
  {
    var routes := [first, second];
    assert routes[1..] == [second];
    assert VerdictOn(routes[0], url, FirstFails) == MatchError;
    assert VerdictOn(routes[1], url, FirstFails) == Matched([Span(0, |url|)]);
    EarliestMatchIs(routes, url, FirstFails, 1);
  }
}
