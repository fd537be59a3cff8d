/**
 * The premium tool access middleware, as the decision it takes for one
 * request: pass the request on, or redirect it to /Home/PremiumRequired.
 *
 * The request path is PathString.Value (None for an empty path), the
 * session holds the integers the session store returns (None when unset),
 * and the tools are the list GetAllTools returns. Utils.Slugify is a
 * parameter.
 */
module Middlewares {
  import opened Wrappers
  import opened Text
  import opened Models

  /** The session keys the web application reads and writes. */
  datatype Session = Session(isAdmin: Option<int>, userId: Option<int>, premium: Option<int>, requestPremium: Option<int>)

  datatype Decision = Next | Redirect(location: string)

  const PremiumRequired := "/Home/PremiumRequired"

  /**
   * PathString.StartsWithSegments: the path starts with the segment,
   * ignoring case, and ends there or goes on with '/'.
   */
  predicate StartsWithSegments(path: Option<string>, segment: string)
  {
    var value := if path.None? then "" else path.value;
    StartsWith(ToLower(value), ToLower(segment)) && (|value| == |segment| || value[|segment|] == '/')
  }

  /** string.TrimStart(c): every leading c taken off. */
  function TrimLeading(s: string, c: char): (r: string)
    ensures |r| <= |s| && r == s[|s| - |r|..]
    ensures r == [] || r[0] != c
    ensures forall i :: 0 <= i < |s| - |r| ==> s[i] == c
  {
    if s == [] || s[0] != c then s
    else
      var r := TrimLeading(s[1..], c);
      assert forall i :: 1 <= i < |s| - |r| ==> s[i] == s[1..][i - 1];
      r
  }

  /** A tool with a name whose slug is the path. */
  predicate SlugMatches(t: Tool, path: string, slugify: string -> string)
  {
    t.toolName.Some? && slugify(t.toolName.value) == path
  }

  predicate FirstMatchAt(ts: seq<Tool>, path: string, slugify: string -> string, i: int)
  {
    0 <= i < |ts| && SlugMatches(ts[i], path, slugify) && forall k :: 0 <= k < i ==> !SlugMatches(ts[k], path, slugify)
  }

  /** FirstOrDefault(t => t.tool_name != null && Slugify(t.tool_name) == path). */
  function MatchingTool(ts: seq<Tool>, path: string, slugify: string -> string): (r: Option<Tool>)
    ensures r.None? <==> forall i :: 0 <= i < |ts| ==> !SlugMatches(ts[i], path, slugify)
    ensures r.Some? ==> exists i :: FirstMatchAt(ts, path, slugify, i) && ts[i] == r.value
  {
    if ts == [] then None
    else if SlugMatches(ts[0], path, slugify) then
      assert FirstMatchAt(ts, path, slugify, 0);
      Some(ts[0])
    else
      var r := MatchingTool(ts[1..], path, slugify);
      if r.Some? then
        ghost var i :| FirstMatchAt(ts[1..], path, slugify, i) && ts[1..][i] == r.value;
        assert forall k :: 1 <= k < i + 1 ==> ts[k] == ts[1..][k - 1];
        assert FirstMatchAt(ts, path, slugify, i + 1);
        r
      else
        assert forall i :: 1 <= i < |ts| ==> ts[i] == ts[1..][i - 1];
        r
  }

  /** Admin and Auth paths, and an administrator's session, are never gated. */
  predicate Exempt(requestPath: Option<string>, session: Session)
  {
    StartsWithSegments(requestPath, "/Admin") || StartsWithSegments(requestPath, "/Auth") || session.isAdmin == Some(1)
  }

  /** The path without its leading slashes; an empty path is "". */
  function Trimmed(requestPath: Option<string>): string
  {
    if requestPath.None? then "" else TrimLeading(requestPath.value, '/')
  }

  predicate IsHome(path: string)
  {
    path == "" || path == "Home" || path == "Home/Index"
  }

  /** Logged in means a UserId in the session; premium means Premium is 1. */
  predicate IsPremiumSession(session: Session)
  {
    session.userId.Some? && session.premium == Some(1)
  }

  /**
   * InvokeAsync's decision. Exempt requests, home paths and logged-in
   * premium users always pass; otherwise the request is redirected exactly
   * when the first tool whose slug is the path needs premium.
   */
  function Decide(requestPath: Option<string>, session: Session, allTools: seq<Tool>, slugify: string -> string): (r: Decision)
    ensures r == Next || r == Redirect(PremiumRequired)
    ensures Exempt(requestPath, session) ==> r == Next
    ensures IsHome(Trimmed(requestPath)) ==> r == Next
    ensures IsPremiumSession(session) ==> r == Next
    ensures r == Redirect(PremiumRequired) <==>
      !Exempt(requestPath, session) && !IsHome(Trimmed(requestPath)) &&
      (var m := MatchingTool(allTools, Trimmed(requestPath), slugify); m.Some? && m.value.premiumRequired) &&
      !IsPremiumSession(session)
  {
    if Exempt(requestPath, session) then Next
    else
      var path := Trimmed(requestPath);
      if path == "" || path == "Home" || path == "Home/Index" then Next
      else
        var matchingTool := MatchingTool(allTools, path, slugify);
        if matchingTool.Some? && matchingTool.value.premiumRequired then
          var isLoggedIn := session.userId.Some?;
          var isPremiumUser := session.premium == Some(1);
          if !isLoggedIn || !isPremiumUser then Redirect(PremiumRequired) else Next
        else Next
  }

  // ---- properties ----

  /** "/Admin" itself and anything below it, in any case, is exempt. */
  lemma AdminSegmentExempt(rest: string, session: Session)
    requires rest == [] || rest[0] == '/'
    ensures Exempt(Some("/Admin" + rest), session) && Exempt(Some("/ADMIN" + rest), session)
  {
    var p, q := "/Admin" + rest, "/ADMIN" + rest;
    ToLowerAppend("/Admin", rest);
    ToLowerAppend("/ADMIN", rest);
    assert ToLower("/ADMIN") == ToLower("/Admin") == "/admin";
    assert ToLower(p)[..|"/Admin"|] == "/admin";
    assert ToLower(q)[..|"/ADMIN"|] == "/admin";
    if rest != [] {
      assert p[6] == rest[0] && q[6] == rest[0];
    }
  }

  /** A path that only shares a prefix with /Admin, such as /Administrator, is not exempt by it. */
  lemma AdminPrefixNotSegment()
    ensures !StartsWithSegments(Some("/Administrator"), "/Admin")
  {
    assert "/Administrator"[6] == 'i';
  }

  /** Fail open: when no tool's slug is the path, or the first such tool is free, the request passes. */
  lemma FailOpen(requestPath: Option<string>, session: Session, allTools: seq<Tool>, slugify: string -> string)
    requires forall t :: t in allTools && SlugMatches(t, Trimmed(requestPath), slugify) ==> !t.premiumRequired
    ensures Decide(requestPath, session, allTools, slugify) == Next
  {
    var m := MatchingTool(allTools, Trimmed(requestPath), slugify);
    if m.Some? {
      var i :| FirstMatchAt(allTools, Trimmed(requestPath), slugify, i) && allTools[i] == m.value;
      assert allTools[i] in allTools;
    }
  }

  /**
   * Matching is on the whole path: "/slug/execute" is not gated by the tool
   * whose slug is "slug", only by a tool whose slug is "slug/execute".
   */
  lemma SubPathNotGated(slug: string, session: Session, allTools: seq<Tool>, slugify: string -> string)
    requires slug != [] && slug[0] != '/'
    requires forall t :: t in allTools ==> !SlugMatches(t, slug + "/execute", slugify)
    ensures Decide(Some("/" + slug + "/execute"), session, allTools, slugify) == Next
  {
    var s := "/" + slug + "/execute";
    assert s[1..] == slug + "/execute";
    assert s[1] == slug[0];
    assert Trimmed(Some(s)) == slug + "/execute";
    FailOpen(Some(s), session, allTools, slugify);
  }

  /** Which tool decides is the first match in list order: a later premium duplicate does not gate. */
  lemma FirstMatchDecides(requestPath: Option<string>, session: Session, allTools: seq<Tool>, slugify: string -> string, i: nat)
    requires FirstMatchAt(allTools, Trimmed(requestPath), slugify, i) && !allTools[i].premiumRequired
    ensures Decide(requestPath, session, allTools, slugify) == Next
  {
    var m := MatchingTool(allTools, Trimmed(requestPath), slugify);
    var j :| FirstMatchAt(allTools, Trimmed(requestPath), slugify, j) && allTools[j] == m.value;
    assert i == j;
  }
}
