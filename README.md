# gosrcdir in Dafny

gosrcdir prints, for each git repository URL it is given, the directory
under `$GOPATH/src` that should hold that repository: for
`https://user@host.com/path/to/repo` or `user@host.com:path/to/repo` it
prints `$GOPATH/src/host.com/path/to`. This project models the
URL-to-directory logic of `gosrcdir.go`:

- `parseStandardURL`: the host and the non-empty path segments of a URL
  that Go's `url.Parse` accepts. `GoSrcDir.ParseStandardUrl` is the loop;
  `GoSrcDir.StandardUrlParts` is the function it is proved against.
- `parseWeirdGitURL`: the host and the path segments of an SCP-like
  `[user@]host:path` string. `GoSrcDir.ParseWeirdGitUrl` keeps the Go
  index arithmetic and loop; `GoSrcDir.WeirdGitUrlParts` is its
  specification.
- `calculateSourcePath`: tries the standard parser, falls back to the
  SCP-like one when the standard one fails for any reason, refuses fewer
  than two segments, and joins `goPath`, `"src"` and every segment but the
  last (`GoSrcDir.CalculateSourcePath`).

The helpers the code takes from Go's standard library are modelled in
their own modules: `strings.Index`, `strings.Split` and a `Join` inverse
in `Strings` (strings.dfy), and `path.Join` without its final
`path.Clean` step in `Paths` (paths.dfy).

`url.Parse` is not modelled. It is a parameter, `urlParse: string ->
ParsedUrl`, that yields either `Unparseable` or the URL's `Host` and
`Path` fields. The contracts of the parsers and the resolver hold for
any such function. Some lemmas about the resolver also assume what
url.Parse makes of their input:
- `GoSrcDir.StandardSourcePath` assumes it returns the host and the path
  that the string spells out.
- `GoSrcDir.HostOnlyStandardUrlRejected` assumes it returns a non-empty
  host and a path made only of '/'.
- `GoSrcDir.ScpSourcePath` and `GoSrcDir.HostScpSourcePath` assume the
  standard parser refuses the string. url.Parse may fail on it, or find
  no host, as with `host.com:path`, which it reads as a scheme.

Errors are the datatype `ParseError`: `UrlError` (url.Parse failed),
`MissingHost`, `MissingPathPart`, `BlankPathSegment` and
`HostAndPathRequired`. These stand for the Go error messages, whose text
is not modelled.

One might expect `user@host.com:` to fail because there is no path part
after the colon. In the code the colon is there, so
the `Missing path part` branch is not taken. `strings.Split("", "/")` is
`[""]`, so the string is refused with `Blank path segment` instead
(`GoSrcDir.WeirdRefusesEmptyPath`).

The test at gosrcdir_test.go:72-82 means to check both
`https://user@host.com/` and `user@host.com:`. Line 77 passes the literal
`user@host.com:` in both iterations, so the standard-URL case is never
checked. `GoSrcDir.HostOnlyStandardUrlRejected` states the case that was
intended: a URL whose path has no segment is refused with
`HostAndPathRequired`.

## Model

| member | source | states |
|---|---|---|
| GoSrcDir.StandardUrlParts | gosrcdir.go:14-35 | succeeds exactly when url.Parse succeeded and the host is non-empty; a parse failure gives `UrlError` and an empty host gives `MissingHost`; on success the host comes first and every later segment is non-empty and free of '/' |
| GoSrcDir.ParseStandardUrl | gosrcdir.go:14-35 | the loop that appends the non-empty '/'-pieces of the path after the host computes exactly `StandardUrlParts` |
| GoSrcDir.PathSegments | gosrcdir.go:27-32 | the kept pieces are non-empty and free of '/', and a string is kept exactly when it is a non-empty piece of the path |
| GoSrcDir.PathSegmentsOfJoin | gosrcdir.go:27-32 | the path `/seg1/.../segN` has exactly the segments `seg1 ... segN` |
| GoSrcDir.PathSegmentsDoubledSlash | gosrcdir.go:27-30 | a doubled '/' in a path yields the same segments as a single one |
| GoSrcDir.StandardUrlOfSegments | gosrcdir_test.go:13-29 | a URL with host `h` and path `/seg1/.../segN` parses to `[h, seg1, ..., segN]` |
| GoSrcDir.StandardIgnoresDoubledSlash | gosrcdir_test.go:17 | the standard parser gives the same result for `a//b` and `a/b` in the path |
| GoSrcDir.WeirdGitUrlParts | gosrcdir.go:38-68 | fails with `MissingPathPart` exactly when there is no ':'; the only errors are `MissingPathPart` and `BlankPathSegment`; on success there are at least two segments, the host has no ':', and every path segment is non-empty and free of '/' |
| GoSrcDir.ParseWeirdGitUrl | gosrcdir.go:38-68 | the Go index arithmetic (`Index + 1`, the reset of the host index when '@' follows ':') and the loop that stops at the first blank piece compute exactly `WeirdGitUrlParts` |
| GoSrcDir.WeirdHostAfterUser | gosrcdir.go:50-57 | when the first '@' comes before the first ':', the host is the text strictly between them and the rest is the '/'-pieces after the ':', unless one is blank |
| GoSrcDir.WeirdHostWithoutUser | gosrcdir.go:50-57 | when no '@' comes before the first ':', the host is everything before the ':' |
| GoSrcDir.WeirdBlankSegment | gosrcdir.go:59-63 | the parser fails with `BlankPathSegment` exactly when the text after the first ':' is empty, starts or ends with '/', or contains "//" |
| GoSrcDir.WeirdPathRoundTrip | gosrcdir.go:42-65 | on success, joining the path segments with '/' gives back the text after the first ':' |
| GoSrcDir.WeirdGitUrlOfUserHost | gosrcdir_test.go:33 | `user@host:seg1/.../segN` parses to `[host, seg1, ..., segN]` |
| GoSrcDir.WeirdGitUrlOfHost | gosrcdir_test.go:34 | `host:seg1/.../segN` parses to `[host, seg1, ..., segN]` |
| GoSrcDir.WeirdAcceptsEmptyHost | gosrcdir.go:56-57 | the host is never checked: `:a/b` parses to `["", "a", "b"]` |
| GoSrcDir.WeirdRefusesEmptyPath | gosrcdir.go:59-62 | `user@host.com:` is refused with `BlankPathSegment` |
| GoSrcDir.WeirdRefusesDoubledSlash | gosrcdir_test.go:48-53 | `user@host.com:path/to//repo` is refused with `BlankPathSegment` |
| GoSrcDir.RepoParts | gosrcdir.go:72-78 | on success there is at least one segment and every segment after the host is non-empty and free of '/' |
| GoSrcDir.CalculateSourcePath | gosrcdir.go:71-88 | fails with `HostAndPathRequired` exactly when the chosen parser succeeded with fewer than two segments, and that parser can only be the standard one; when the standard parser fails the result fails exactly when the SCP-like parser does, with its error; after a standard success the only error is `HostAndPathRequired`; a result path is never empty |
| GoSrcDir.SourcePathLayout | gosrcdir.go:85-86 | with a non-empty `goPath` and host the result is `goPath/src/seg0/.../seg(N-1)`: every segment but the last, one '/' between each |
| GoSrcDir.JoinUnder | gosrcdir.go:85-86 | joining a root, a sub-directory and non-empty names puts exactly one '/' between each |
| GoSrcDir.HostOnlyStandardUrlRejected | gosrcdir.go:80-83 | a URL with a host and a path made only of '/' (such as `https://user@host.com/`) is refused with `HostAndPathRequired` |
| GoSrcDir.StandardSourcePath | gosrcdir_test.go:55-70 | `scheme://[user@]host/seg1/.../segN` resolves to `goPath/src/host/seg1/.../seg(N-1)` |
| GoSrcDir.ScpSourcePath | gosrcdir_test.go:55-70 | `user@host:seg1/.../segN`, when the standard parser refuses it for any reason, resolves to the same `goPath/src/host/seg1/.../seg(N-1)` |
| GoSrcDir.HostScpSourcePath | gosrcdir.go:72-86 | `host:seg1/.../segN`, with no user, which the standard parser refuses because url.Parse finds no host, resolves to `goPath/src/host/seg1/.../seg(N-1)` |
| GoSrcDir.FallbackLayout | gosrcdir.go:72-86 | when the standard parser fails and the SCP-like one yields `[host, seg1, ..., segN]`, the result is `goPath/src/host/seg1/.../seg(N-1)` |
| Strings.IndexOf | gosrcdir.go:40-41 | `strings.Index`: -1 exactly when the character is absent, otherwise the position of its first occurrence |
| Strings.Split | gosrcdir.go:42-48 | `strings.Split` always yields at least one piece, so the `len(repoPath) == 0` test never fires |
| Strings.SplitPiecesFree | gosrcdir.go:42 | no piece of a split contains the separator |
| Strings.JoinSplit | gosrcdir.go:42 | joining the pieces of a split with the separator gives back the original text |
| Strings.SplitJoin | gosrcdir.go:42 | splitting the join of separator-free pieces gives back those pieces |
| Strings.SplitAppend | gosrcdir.go:42 | splitting `a + sep + b` gives the pieces of `a` followed by the pieces of `b` |
| Strings.BlankPieceIff | gosrcdir.go:59-62 | a split has an empty piece exactly when the text is empty, starts or ends with the separator, or holds two in a row |
| Strings.NonEmpty | gosrcdir.go:27-31 | the filter of the standard parser keeps a string exactly when it is a non-empty piece, and never yields more pieces than it is given |
| Strings.NonEmptyAppend | gosrcdir.go:27-31 | filtering distributes over concatenation |
| Strings.OnlySeparatorsSplitToBlanks | gosrcdir.go:27-31 | a path made only of '/' has no segment |
| Paths.PathJoin | gosrcdir.go:86 | `path.Join` is empty exactly when every element is empty |
| Paths.PathJoinOfNonEmpty | gosrcdir.go:86 | with no empty element, `path.Join` puts one '/' between neighbours |

## Left out

- `main` (argument handling, printing, exit codes) and `getGoPath` (reads
  the `GOPATH` environment variable): input and output. `goPath` is a
  parameter of `GoSrcDir.CalculateSourcePath`.
- `url.Parse`: the URI grammar is outside the model. It is a function
  parameter that yields the `Host` and `Path` fields or a failure.
- Paths.PathJoin: does not apply the final `path.Clean`. The model agrees
  with Go's `path.Join` only when the elements need no cleaning. The
  first element may start with '/'. No element may end with '/', hold a
  doubled '/' or a `.` or `..` component, and no later element may start
  with '/'.
- GoSrcDir.CalculateSourcePath: inherits the missing `path.Clean`. The
  result agrees with Go only when `goPath` is clean and is neither "/"
  nor ".", the host has no leading, trailing or doubled '/', and neither
  the host nor any segment holds a `.` or `..` component. The SCP-like
  parser's host is all the text before the first ':', so it can hold
  '/': for `/a:c/d` the model gives
  `goPath/src//a/c`, where Go gives `goPath/src/a/c`. A `..` segment from
  the SCP-like parser, or a non-clean `goPath`, also gives a different
  string here than in Go.
- The partial `pathParts` that the Go parsers return beside an error:
  every caller discards it, so an error carries no segments in the model.
- The text of the error messages: each is one `ParseError` constructor.
- Byte versus character indexing: Go slices strings by byte and the model
  by `char`. The cut points are the ASCII characters '@', ':' and '/', so
  the pieces are the same.
