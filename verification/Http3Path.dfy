// The request path over HTTP/3 (main/http3/event_cb.c): taken as it is, checked,
// and routed whatever the check says.
module Http3Path {
  import opened Common
  import opened Paths
  import opened Routes

  // The HEADERS event, as far as root_router's choice: a route, or the name of a
  // local file. for_each_header copies the value up to a zero byte; it neither
  // decodes it nor cuts off a query. `rc` is what becomes of the check: a nonzero
  // result is only logged.
  method OnHeaders(value: Str, table: RouteTable, m: Matcher)
    returns (found: RouteMatch, file: Option<Str>, rc: int)
    ensures found.route == Picked(table.routes, CString(value), m)
    ensures found.strippedPath.Found? ==> found.strippedPath.path != [] && found.strippedPath.path[0] == SLASH
    ensures file.Some? <==> found.route.None?
    ensures file.Some? ==>
      && (file.value != [] ==> file.value[0] != SLASH)
      && exists k: nat :: k <= |CString(value)| && file.value == CString(value)[k..]
           && forall i :: 0 <= i < k ==> CString(value)[i] == SLASH
    ensures file.Some? ==>
      (StaysBelow(Segments(file.value), 0)
       <==> forall k :: 0 <= k <= |Segments(CString(value))| ==> Net(Segments(CString(value))[..k]) >= 0)
    ensures rc == 0 <==> CheckPath(CString(value))
    ensures rc == 0 && file.Some? ==> StaysBelow(Segments(file.value), 0) && NoDotSegment(file.value)
  {
    var url := CString(value);
    rc := if CheckPath(url) then 0 else 1;
    found := table.Choose(url, m);
    ghost var k := Decisive(table.routes, url, m);
    if found.strippedPath.Found? && Exact(table.routes, url).None? {
      StrippedIsAbsolute(url, VerdictOn(table.routes[k], url, m).spans, found.strippedPath);
    }
    file := None;
    if found.route.None? {
      var relPath := StripSlashes(url);
      file := Some(relPath);
      ghost var n := StrippedIsRelative(url);
      StaysBelowExactlyWhen(Segments(url), 0);
      StrippedWalksAlike(url, 0);
      if rc == 0 {
        LocalFileStaysBelow(url);
      }
    }
  }

  // Stripping takes away the leading slashes and nothing else.
  lemma {:induction false} StrippedIsRelative(path: Str) returns (k: nat)
    ensures Stripped(path) != [] ==> Stripped(path)[0] != SLASH
    ensures k <= |path| && Stripped(path) == path[k..] && forall i :: 0 <= i < k ==> path[i] == SLASH
  {
    k := 0;
    if path != [] && path[0] == SLASH {
      k := StrippedIsRelative(path[1..]);
      assert forall i :: 0 < i < k + 1 ==> path[i] == path[1..][i - 1];
      k := k + 1;
    }
  }

  // "/../x" does not pass the check, and is opened all the same, as "../x", which
  // lies outside the starting directory.
  lemma UncheckedPathClimbs()
    ensures var url: Str := [SLASH, DOT, DOT, SLASH, 120];
      && CString(url) == url && !CheckPath(url)
      && Picked([], url, (re, s) => NoMatch) == None
      && Stripped(url) == [DOT, DOT, SLASH, 120] && !StaysBelow(Segments(Stripped(url)), 0)
  {
    var url: Str := [SLASH, DOT, DOT, SLASH, 120];
    CStringIs(url, 5);
    assert url[..5] == url;
    assert MatchAt(url, 0, [SLASH, DOT, DOT, SLASH]);
    var r: Str := [DOT, DOT, SLASH, 120];
    assert url[1..] == r && Stripped(r) == r;
    FirstSlashIs(r, 2);
    assert r[..2] == [DOT, DOT];
    assert Segments(r)[0] == [DOT, DOT];
  }
}
