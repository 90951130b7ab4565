/** The URL-to-directory logic of gosrcdir: two parsers that turn a
    repository URL into a segment sequence (host first, then the path
    components), and the resolver that tries the standard parser, falls
    back to the SCP-like one, and places all but the last segment under
    `<GOPATH>/src`. */
module GoSrcDir {
  import opened Strings
  import Paths

  /** Why a repository string could not be resolved. */
  datatype ParseError =
    | UrlError             // url.Parse rejected the string
    | MissingHost          // "Missing host part"
    | MissingPathPart      // "Missing path part"
    | BlankPathSegment     // "Blank path segment"
    | HostAndPathRequired  // "Host and path required"

  datatype Result<T> = Ok(value: T) | Err(error: ParseError)

  /** What Go's `url.Parse` (generic URI syntax, section 3 of RFC 3986)
      yields for a string: an error, or the parsed URL's `Host` and `Path`
      fields. The URI grammar itself is outside this model; the resolver
      receives it as a function. */
  datatype ParsedUrl = Unparseable | Url(host: string, path: string)

  // ---------------------------------------------------------------------
  // parseStandardURL

  /** The non-empty '/'-pieces of a URL path, in order. */
  function PathSegments(path: string): (segs: seq<string>)
    ensures forall k :: 0 <= k < |segs| ==> segs[k] != "" && '/' !in segs[k]
    ensures forall x :: x in segs <==> x in Split(path, '/') && x != ""
  {
    var pieces := Split(path, '/');
    SplitPiecesFree(path, '/');
    assert forall x :: x in pieces ==> '/' !in x;
    NonEmpty(pieces)
  }

  /** A path `/seg1/.../segN` has exactly the segments `seg1, ..., segN`. */
  lemma PathSegmentsOfJoin(segs: seq<string>)
    requires forall k :: 0 <= k < |segs| ==> segs[k] != "" && '/' !in segs[k]
    ensures PathSegments("/" + Join(segs, '/')) == segs
  {
    var joined := Join(segs, '/');
    var path := "/" + joined;
    assert path[0] == '/' && path[1..] == joined;
    SplitStepSeparator(path, '/');
    NonEmptyDropsBlank(Split(joined, '/'));
    if segs == [] {
      assert Split(joined, '/') == [""];
    } else {
      SplitJoin(segs, '/');
      NonEmptyKeepsAll(segs);
    }
  }

  /** Cutting at a doubled slash leaves one empty piece between the halves. */
  lemma SplitDoubledSlash(a: string, b: string)
    ensures Split(a + "//" + b, '/') == Split(a, '/') + ([""] + Split(b, '/'))
  {
    var slashB := "/" + b;
    assert a + "//" + b == a + ['/'] + slashB;
    SplitAppend(a, '/', slashB);
    assert slashB[0] == '/' && slashB[1..] == b;
    SplitStepSeparator(slashB, '/');
  }

  /** A doubled slash in a path adds no segment. */
  lemma PathSegmentsDoubledSlash(a: string, b: string)
    ensures PathSegments(a + "//" + b) == PathSegments(a + "/" + b)
  {
    var pa, pb := Split(a, '/'), Split(b, '/');
    calc {
      PathSegments(a + "//" + b);
      { SplitDoubledSlash(a, b); }
      NonEmpty(pa + ([""] + pb));
      { NonEmptyAppend(pa, [""] + pb); }
      NonEmpty(pa) + NonEmpty([""] + pb);
      { NonEmptyDropsBlank(pb); }
      NonEmpty(pa) + NonEmpty(pb);
      { NonEmptyAppend(pa, pb); }
      NonEmpty(pa + pb);
      { assert a + "/" + b == a + ['/'] + b;
        SplitAppend(a, '/', b); }
      PathSegments(a + "/" + b);
    }
  }

  /** The segment sequence of a URL: the host, then every non-empty
      '/'-piece of the path in order. A URL without a host is refused. */
  function StandardUrlParts(u: ParsedUrl): (r: Result<seq<string>>)
    ensures r.Ok? <==> u.Url? && u.host != ""
    ensures u.Unparseable? ==> r == Err(UrlError)
    ensures u.Url? && u.host == "" ==> r == Err(MissingHost)
    ensures r.Ok? ==> |r.value| >= 1 && r.value[0] == u.host
    ensures r.Ok? ==> forall k :: 1 <= k < |r.value| ==> r.value[k] != "" && '/' !in r.value[k]
  {
    match u
    case Unparseable => Err(UrlError)
    case Url(host, path) =>
      if host == "" then Err(MissingHost)
      else
        var segs := PathSegments(path);
        var parts := [host] + segs;
        assert parts[1..] == segs;
        Ok(parts)
  }

  /** parseStandardURL, given what url.Parse made of the repository
      string: starts from the host and appends the pieces of the path one
      by one, skipping the empty ones. */
  method ParseStandardUrl(u: ParsedUrl) returns (r: Result<seq<string>>)
    ensures r == StandardUrlParts(u)
  {
    if u.Unparseable? {
      return Err(UrlError);
    }
    if u.host == "" {
      return Err(MissingHost);
    }
    var pathParts := [u.host];
    var pieces := Split(u.path, '/');
    for i := 0 to |pieces|
      invariant pathParts == [u.host] + NonEmpty(pieces[..i])
    {
      assert pieces[..i + 1] == pieces[..i] + [pieces[i]];
      if pieces[i] == "" {
        continue;
      }
      pathParts := pathParts + [pieces[i]];
    }
    assert pieces[..|pieces|] == pieces;
    return Ok(pathParts);
  }

  /** A URL whose path is `/seg1/.../segN` yields exactly `[host, seg1, ..., segN]`. */
  lemma StandardUrlOfSegments(host: string, segs: seq<string>)
    requires host != ""
    requires forall k :: 0 <= k < |segs| ==> segs[k] != "" && '/' !in segs[k]
    ensures StandardUrlParts(Url(host, "/" + Join(segs, '/'))) == Ok([host] + segs)
  {
    PathSegmentsOfJoin(segs);
  }

  /** A doubled slash in the path changes nothing: the empty piece between
      the two slashes is dropped. */
  lemma StandardIgnoresDoubledSlash(host: string, a: string, b: string)
    ensures StandardUrlParts(Url(host, a + "//" + b)) == StandardUrlParts(Url(host, a + "/" + b))
  {
    PathSegmentsDoubledSlash(a, b);
  }

  // ---------------------------------------------------------------------
  // parseWeirdGitURL

  /** The segment sequence of an SCP-like `[user@]host:path` string. The
      first ':' ends the host; a '@' before it ends a user name that is
      dropped, a '@' after it belongs to the path. The text after the
      first ':' is cut at every '/', and an empty piece is refused. */
  function WeirdGitUrlParts(repo: string): (r: Result<seq<string>>)
    ensures r == Err(MissingPathPart) <==> ':' !in repo
    ensures r.Err? ==> r.error == MissingPathPart || r.error == BlankPathSegment
    ensures r.Ok? ==> |r.value| >= 2 && ':' !in r.value[0]
    ensures r.Ok? ==> forall k :: 1 <= k < |r.value| ==> r.value[k] != "" && '/' !in r.value[k]
  {
    var colon := IndexOf(repo, ':');
    if colon < 0 then Err(MissingPathPart)
    else
      var at := IndexOf(repo, '@');
      var host := if 0 <= at < colon then repo[at + 1..colon] else repo[..colon];
      assert forall c :: c in host ==> c in repo[..colon];
      var pieces := Split(repo[colon + 1..], '/');
      SplitPiecesFree(repo[colon + 1..], '/');
      if "" in pieces then Err(BlankPathSegment)
      else
        var parts := [host] + pieces;
        assert parts[1..] == pieces;
        Ok(parts)
  }

  /** parseWeirdGitURL: finds the first '@' and the first ':' with
      `strings.Index`, cuts the host out between them, and appends the
      '/'-pieces after the ':' one by one, stopping at the first blank one. */
  method ParseWeirdGitUrl(repo: string) returns (r: Result<seq<string>>)
    ensures r == WeirdGitUrlParts(repo)
  {
    var hostIndex := IndexOf(repo, '@') + 1;
    var pathIndex := IndexOf(repo, ':') + 1;
    var repoPath := Split(repo[pathIndex..], '/');

    // Without a ':' this is not an SCP-like URL.
    if pathIndex == 0 || |repoPath| == 0 {
      return Err(MissingPathPart);
    }

    // No '@' leaves hostIndex at 0; a '@' after the ':' is part of the path.
    if hostIndex > pathIndex {
      hostIndex := 0;
    }

    var host := repo[hostIndex..pathIndex - 1];
    var pathParts := [host];
    for i := 0 to |repoPath|
      invariant pathParts == [host] + repoPath[..i]
      invariant "" !in repoPath[..i]
    {
      if repoPath[i] == "" {
        return Err(BlankPathSegment);
      }
      assert repoPath[..i + 1] == repoPath[..i] + [repoPath[i]];
      pathParts := pathParts + [repoPath[i]];
    }
    assert repoPath[..|repoPath|] == repoPath;
    return Ok(pathParts);
  }

  /** The first ':' of `repo` is at `colon`. */
  predicate FirstColonAt(repo: string, colon: nat)
  {
    colon < |repo| && repo[colon] == ':' && ':' !in repo[..colon]
  }

  /** With a user part (the first '@' comes before the first ':'), the host
      is the text strictly between the two. */
  lemma WeirdHostAfterUser(repo: string, at: nat, colon: nat)
    requires FirstColonAt(repo, colon)
    requires at < colon && repo[at] == '@' && '@' !in repo[..at]
    ensures WeirdGitUrlParts(repo) ==
      var pieces := Split(repo[colon + 1..], '/');
      if "" in pieces then Err(BlankPathSegment) else Ok([repo[at + 1..colon]] + pieces)
  {
    IndexOfIsFirst(repo, ':', colon);
    IndexOfIsFirst(repo, '@', at);
  }

  /** Without a user part ('@' absent, or only after the first ':'), the
      host is everything before the first ':'. */
  lemma WeirdHostWithoutUser(repo: string, colon: nat)
    requires FirstColonAt(repo, colon)
    requires '@' !in repo[..colon]
    ensures WeirdGitUrlParts(repo) ==
      var pieces := Split(repo[colon + 1..], '/');
      if "" in pieces then Err(BlankPathSegment) else Ok([repo[..colon]] + pieces)
  {
    IndexOfIsFirst(repo, ':', colon);
  }

  /** The SCP-like parser refuses the string with a blank segment exactly
      when the text after the first ':' is empty, starts or ends with '/',
      or holds "//". */
  lemma WeirdBlankSegment(repo: string, colon: nat)
    requires FirstColonAt(repo, colon)
    ensures WeirdGitUrlParts(repo) == Err(BlankPathSegment) <==> HasBlankPiece(repo[colon + 1..], '/')
  {
    IndexOfIsFirst(repo, ':', colon);
    BlankPieceIff(repo[colon + 1..], '/');
  }

  /** On success, joining the path segments with '/' gives back the text
      after the first ':' exactly. */
  lemma WeirdPathRoundTrip(repo: string, colon: nat)
    requires FirstColonAt(repo, colon)
    ensures WeirdGitUrlParts(repo).Ok? ==> Join(WeirdGitUrlParts(repo).value[1..], '/') == repo[colon + 1..]
  {
    IndexOfIsFirst(repo, ':', colon);
    var r := WeirdGitUrlParts(repo);
    if r.Ok? {
      var pieces := Split(repo[colon + 1..], '/');
      assert r.value[1..] == pieces;
      JoinSplit(repo[colon + 1..], '/');
    }
  }

  /** `user@host:seg1/.../segN` yields `[host, seg1, ..., segN]`. */
  lemma WeirdGitUrlOfUserHost(user: string, host: string, segs: seq<string>)
    requires ':' !in user && '@' !in user && ':' !in host
    requires |segs| >= 1
    requires forall k :: 0 <= k < |segs| ==> segs[k] != "" && '/' !in segs[k]
    ensures WeirdGitUrlParts(user + "@" + host + ":" + Join(segs, '/')) == Ok([host] + segs)
  {
    var path := Join(segs, '/');
    var repo := user + "@" + host + ":" + path;
    var colon := |user| + 1 + |host|;
    assert repo[..colon] == user + "@" + host;
    assert repo[..|user|] == user;
    assert ':' !in repo[..colon];
    assert repo[colon + 1..] == path;
    assert repo[|user| + 1..colon] == host;
    SplitJoin(segs, '/');
    WeirdHostAfterUser(repo, |user|, colon);
  }

  /** `host:seg1/.../segN` yields `[host, seg1, ..., segN]`. */
  lemma WeirdGitUrlOfHost(host: string, segs: seq<string>)
    requires ':' !in host && '@' !in host
    requires |segs| >= 1
    requires forall k :: 0 <= k < |segs| ==> segs[k] != "" && '/' !in segs[k]
    ensures WeirdGitUrlParts(host + ":" + Join(segs, '/')) == Ok([host] + segs)
  {
    var path := Join(segs, '/');
    var repo := host + ":" + path;
    assert repo[..|host|] == host;
    assert repo[|host| + 1..] == path;
    SplitJoin(segs, '/');
    WeirdHostWithoutUser(repo, |host|);
  }

  /** The host is never checked for being empty: ":a/b" is accepted with
      an empty host. */
  lemma WeirdAcceptsEmptyHost()
    ensures WeirdGitUrlParts(":a/b") == Ok(["", "a", "b"])
  {
    var segs := ["a", "b"];
    assert segs[1..] == ["b"];
    assert Join(segs, '/') == "a/b";
    assert "" + ":" + "a/b" == ":a/b";
    WeirdGitUrlOfHost("", segs);
    assert [""] + segs == ["", "a", "b"];
  }

  /** Nothing after the ':' is a blank segment too: "user@host.com:" is refused. */
  lemma WeirdRefusesEmptyPath()
    ensures WeirdGitUrlParts("user@host.com:") == Err(BlankPathSegment)
  {
    var repo := "user@host.com:";
    assert repo[..13] == "user@host.com";
    WeirdBlankSegment(repo, 13);
  }

  /** A doubled slash after the ':' is refused: "user@host.com:path/to//repo". */
  lemma WeirdRefusesDoubledSlash()
    ensures WeirdGitUrlParts("user@host.com:path/to//repo") == Err(BlankPathSegment)
  {
    var repo := "user@host.com:path/to//repo";
    var path := repo[14..];
    assert repo[..13] == "user@host.com";
    assert path[7] == '/' && path[8] == '/';
    WeirdBlankSegment(repo, 13);
  }

  // ---------------------------------------------------------------------
  // calculateSourcePath

  /** The segment sequence the resolver works from: the standard parser's,
      unless it failed for any reason, then the SCP-like parser's, errors
      included. */
  function RepoParts(urlParse: string -> ParsedUrl, repo: string): (r: Result<seq<string>>)
    ensures r.Ok? ==> |r.value| >= 1
    ensures r.Ok? ==> forall k :: 1 <= k < |r.value| ==> r.value[k] != "" && '/' !in r.value[k]
  {
    var standard := StandardUrlParts(urlParse(repo));
    if standard.Ok? then standard else WeirdGitUrlParts(repo)
  }

  /** calculateSourcePath: the directory under `goPath/src` that holds the
      repository, i.e. the path joined from `goPath`, "src" and every
      segment but the last (the repository's own name). */
  function CalculateSourcePath(urlParse: string -> ParsedUrl, goPath: string, repo: string): (r: Result<string>)
    ensures r == Err(HostAndPathRequired) ==>
      StandardUrlParts(urlParse(repo)).Ok? && |StandardUrlParts(urlParse(repo)).value| < 2
    ensures StandardUrlParts(urlParse(repo)).Err? ==>
      (r.Err? <==> WeirdGitUrlParts(repo).Err?) &&
      (r.Err? ==> r.error == WeirdGitUrlParts(repo).error)
    ensures StandardUrlParts(urlParse(repo)).Ok? && r.Err? ==> r.error == HostAndPathRequired
    ensures RepoParts(urlParse, repo).Ok? && |RepoParts(urlParse, repo).value| < 2 ==>
      r == Err(HostAndPathRequired)
    ensures r.Ok? ==> r.value != ""
  {
    match RepoParts(urlParse, repo)
    case Err(e) => Err(e)
    case Ok(parts) =>
      if |parts| < 2 then Err(HostAndPathRequired)
      else
        var elems := [goPath, "src"] + parts[..|parts| - 1];
        assert elems[1] == "src" && elems[1] in elems;
        Ok(Paths.PathJoin(elems))
  }

  /** With a non-empty `goPath` and a non-empty host, the result is
      `goPath + "/src/" + host + "/" + ...` up to, and without, the last
      segment. */
  lemma SourcePathLayout(urlParse: string -> ParsedUrl, goPath: string, repo: string, parts: seq<string>)
    requires goPath != ""
    requires RepoParts(urlParse, repo) == Ok(parts)
    requires |parts| >= 2 && parts[0] != ""
    ensures CalculateSourcePath(urlParse, goPath, repo) ==
      Ok(goPath + "/" + "src" + "/" + Join(parts[..|parts| - 1], '/'))
  {
    var dirs := parts[..|parts| - 1];
    assert forall k :: 0 <= k < |dirs| ==> dirs[k] == parts[k] != "";
    assert "src" != "";
    JoinUnder(goPath, "src", dirs);
  }

  /** Joining a root, a sub-directory and further non-empty directory
      names puts one '/' between each. */
  lemma JoinUnder(root: string, sub: string, dirs: seq<string>)
    requires root != "" && sub != "" && |dirs| >= 1
    requires forall e :: e in dirs ==> e != ""
    ensures Paths.PathJoin([root, sub] + dirs) == root + "/" + sub + "/" + Join(dirs, '/')
  {
    var elems := [root, sub] + dirs;
    assert forall e :: e in elems ==> e in dirs || e == root || e == sub;
    Paths.PathJoinOfNonEmpty(elems);
    JoinConsTwo(root, sub, dirs, '/');
  }

  /** "https://user@host.com/" parses to the host alone, which the resolver
      refuses. */
  lemma HostOnlyStandardUrlRejected(urlParse: string -> ParsedUrl, goPath: string, repo: string)
    requires urlParse(repo).Url? && urlParse(repo).host != ""
    requires forall k :: 0 <= k < |urlParse(repo).path| ==> urlParse(repo).path[k] == '/'
    ensures CalculateSourcePath(urlParse, goPath, repo) == Err(HostAndPathRequired)
  {
    OnlySeparatorsSplitToBlanks(urlParse(repo).path, '/');
  }

  /** The standard spelling `scheme://[user@]host/seg1/.../segN` resolves
      to `goPath/src/host/seg1/.../seg(N-1)`. */
  lemma StandardSourcePath(urlParse: string -> ParsedUrl, goPath: string, repo: string,
                           host: string, segs: seq<string>)
    requires goPath != "" && host != "" && |segs| >= 1
    requires forall k :: 0 <= k < |segs| ==> segs[k] != "" && '/' !in segs[k]
    requires urlParse(repo) == Url(host, "/" + Join(segs, '/'))
    ensures CalculateSourcePath(urlParse, goPath, repo)
         == Ok(goPath + "/" + "src" + "/" + Join([host] + segs[..|segs| - 1], '/'))
  {
    StandardUrlOfSegments(host, segs);
    var parts := [host] + segs;
    assert parts[..|parts| - 1] == [host] + segs[..|segs| - 1];
    assert RepoParts(urlParse, repo) == Ok(parts);
    SourcePathLayout(urlParse, goPath, repo, parts);
  }

  /** The SCP-like spelling `user@host:seg1/.../segN`, which the standard
      parser refuses (url.Parse fails on it, or finds no host), resolves to
      the same `goPath/src/host/seg1/.../seg(N-1)`. */
  lemma ScpSourcePath(urlParse: string -> ParsedUrl, goPath: string, repo: string,
                      user: string, host: string, segs: seq<string>)
    requires goPath != "" && host != "" && |segs| >= 1
    requires ':' !in user && '@' !in user && ':' !in host
    requires forall k :: 0 <= k < |segs| ==> segs[k] != "" && '/' !in segs[k]
    requires repo == user + "@" + host + ":" + Join(segs, '/')
    requires StandardUrlParts(urlParse(repo)).Err?
    ensures CalculateSourcePath(urlParse, goPath, repo)
         == Ok(goPath + "/" + "src" + "/" + Join([host] + segs[..|segs| - 1], '/'))
  {
    WeirdGitUrlOfUserHost(user, host, segs);
    FallbackLayout(urlParse, goPath, repo, host, segs);
  }

  /** The spelling `host:seg1/.../segN` without a user, which url.Parse
      reads as a scheme and an opaque part with no host, resolves to
      `goPath/src/host/seg1/.../seg(N-1)` too. */
  lemma HostScpSourcePath(urlParse: string -> ParsedUrl, goPath: string, repo: string,
                          host: string, segs: seq<string>)
    requires goPath != "" && host != "" && |segs| >= 1
    requires ':' !in host && '@' !in host
    requires forall k :: 0 <= k < |segs| ==> segs[k] != "" && '/' !in segs[k]
    requires repo == host + ":" + Join(segs, '/')
    requires StandardUrlParts(urlParse(repo)).Err?
    ensures CalculateSourcePath(urlParse, goPath, repo)
         == Ok(goPath + "/" + "src" + "/" + Join([host] + segs[..|segs| - 1], '/'))
  {
    WeirdGitUrlOfHost(host, segs);
    FallbackLayout(urlParse, goPath, repo, host, segs);
  }

  /** When the standard parser fails and the SCP-like one yields a host
      and segments, the result is laid out under `goPath/src`. */
  lemma FallbackLayout(urlParse: string -> ParsedUrl, goPath: string, repo: string,
                       host: string, segs: seq<string>)
    requires goPath != "" && host != "" && |segs| >= 1
    requires StandardUrlParts(urlParse(repo)).Err?
    requires WeirdGitUrlParts(repo) == Ok([host] + segs)
    ensures CalculateSourcePath(urlParse, goPath, repo)
         == Ok(goPath + "/" + "src" + "/" + Join([host] + segs[..|segs| - 1], '/'))
  {
    var parts := [host] + segs;
    assert parts[..|parts| - 1] == [host] + segs[..|segs| - 1];
    SourcePathLayout(urlParse, goPath, repo, parts);
  }
}
