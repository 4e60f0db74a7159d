/** src/utils/git.js: parsing of dependency references (`url#ref&path:sub`),
    recognition of Git URLs, the short name of a repository, and the three
    effectful steps on a repository: cloning it into a temporary directory,
    copying a subtree out of it, and reading the package name it declares. */
module Git {
  import opened Wrappers
  import opened Strings
  import opened Fs

  // ---------------------------------------------------------------------------
  // parseGitUrl

  /** A parsed reference string. */
  datatype GitReference = GitReference(url: string, ref: string, path: string)

  const PathPrefix := "path:"

  predicate IsPathToken(token: string) {
    StartsWith(token, PathPrefix)
  }

  /** `part.replace("path:", "")` on a token that starts with "path:". */
  function PathOfToken(token: string): string
    requires IsPathToken(token)
  {
    token[|PathPrefix|..]
  }

  /** The ref selected by a fragment's tokens: the last token that is not a
      path token, "HEAD" when there is none. */
  function SelectedRef(tokens: seq<string>): string {
    if tokens == [] then "HEAD"
    else if !IsPathToken(Last(tokens)) then Last(tokens)
    else SelectedRef(tokens[..|tokens| - 1])
  }

  /** The subpath selected by a fragment's tokens: the remainder of the last
      path token, "/" when there is none. */
  function SelectedPath(tokens: seq<string>): string {
    if tokens == [] then "/"
    else if IsPathToken(Last(tokens)) then PathOfToken(Last(tokens))
    else SelectedPath(tokens[..|tokens| - 1])
  }

  /** What `parseGitUrl(raw)` returns. `url.split("#")` is destructured into
      its first two pieces, so the fragment is the text between the first and
      the second '#'; an absent or empty fragment gives the defaults. */
  function Parse(raw: string): (r: GitReference)
    ensures '#' !in r.url
  {
    var pieces := Split(raw, '#');
    if |pieces| < 2 || pieces[1] == "" then GitReference(pieces[0], "HEAD", "/")
    else
      var tokens := Split(pieces[1], '&');
      GitReference(pieces[0], SelectedRef(tokens), SelectedPath(tokens))
  }

  /** parseGitUrl: walks the fragment's tokens, each path token resetting the
      subpath and each other token resetting the ref. */
  method ParseGitUrl(raw: string) returns (r: GitReference)
    ensures r == Parse(raw)
  {
    var pieces := Split(raw, '#');
    var baseUrl := pieces[0];
    if |pieces| < 2 || pieces[1] == "" {
      return GitReference(baseUrl, "HEAD", "/");
    }
    var paramParts := Split(pieces[1], '&');
    var ref, subPath := "HEAD", "/";
    for i := 0 to |paramParts|
      invariant ref == SelectedRef(paramParts[..i])
      invariant subPath == SelectedPath(paramParts[..i])
    {
      var part := paramParts[i];
      assert paramParts[..i + 1][..i] == paramParts[..i];
      if IsPathToken(part) {
        subPath := PathOfToken(part);
      } else {
        ref := part;
      }
    }
    assert paramParts[..|paramParts|] == paramParts;
    return GitReference(baseUrl, ref, subPath);
  }

  lemma SplitTwo(a: string, c: char, b: string)
    requires c !in a && c !in b
    ensures Split(a + [c] + b, c) == [a, b]
  {
    SplitAfter(a, c, b);
    assert Split(b, c) == [b];
  }

  /** A reference with one '#': the fragment alone decides ref and path. */
  lemma ParseFragment(u: string, f: string)
    requires '#' !in u && '#' !in f
    ensures Parse(u + "#" + f) ==
      if f == "" then GitReference(u, "HEAD", "/")
      else GitReference(u, SelectedRef(Split(f, '&')), SelectedPath(Split(f, '&')))
  {
    assert u + "#" + f == u + ['#'] + f;
    SplitTwo(u, '#', f);
  }

  lemma SelectedOfTwo(a: string, b: string)
    ensures SelectedRef([a, b]) == if !IsPathToken(b) then b else if !IsPathToken(a) then a else "HEAD"
    ensures SelectedPath([a, b]) == if IsPathToken(b) then PathOfToken(b) else if IsPathToken(a) then PathOfToken(a) else "/"
  {
    assert [a, b][..1] == [a];
    assert [a][..0] == [];
    assert SelectedRef([a]) == if !IsPathToken(a) then a else SelectedRef([]);
    assert SelectedPath([a]) == if IsPathToken(a) then PathOfToken(a) else SelectedPath([]);
  }

  /** Without a '#', the whole text is the url and ref and path take their
      defaults. */
  lemma ParseWithoutFragment(u: string)
    requires '#' !in u
    ensures Parse(u) == GitReference(u, "HEAD", "/")
  {
    assert Split(u, '#') == [u];
  }

  /** Text after a second '#' is dropped. */
  lemma ParseIgnoresSecondFragment(u: string, f: string, rest: string)
    requires '#' !in u && '#' !in f
    ensures Parse(u + "#" + f + "#" + rest) == Parse(u + "#" + f)
  {
    var tail := f + "#" + rest;
    assert u + "#" + f + "#" + rest == u + ['#'] + tail;
    SplitAfter(u, '#', tail);
    assert tail == f + ['#'] + rest;
    SplitAfter(f, '#', rest);
    ParseFragment(u, f);
  }

  /** An empty fragment, before a second '#' or not, also gives the defaults. */
  lemma ParseEmptyFragment(u: string, rest: string)
    requires '#' !in u
    ensures Parse(u + "#") == GitReference(u, "HEAD", "/")
    ensures Parse(u + "##" + rest) == GitReference(u, "HEAD", "/")
  {
    ParseFragment(u, "");
    assert u + "#" + "" == u + "#";
    ParseIgnoresSecondFragment(u, "", rest);
    assert u + "#" + "" + "#" + rest == u + "##" + rest;
  }

  lemma PathTokenOf(p: string)
    ensures IsPathToken("path:" + p) && PathOfToken("path:" + p) == p
  {
    assert ("path:" + p)[..5] == "path:";
  }

  /** The tokens of a two-token fragment `a&b`. */
  lemma ParseTwoTokens(u: string, a: string, b: string)
    requires '#' !in u && '#' !in a && '&' !in a && '#' !in b && '&' !in b
    ensures Parse(u + "#" + a + "&" + b) == GitReference(u, SelectedRef([a, b]), SelectedPath([a, b]))
  {
    var f := a + "&" + b;
    assert u + "#" + a + "&" + b == u + "#" + f;
    TwoTokenFragment(a, b);
    ParseFragment(u, f);
  }

  lemma TwoTokenFragment(a: string, b: string)
    requires '#' !in a && '&' !in a && '#' !in b && '&' !in b
    ensures '#' !in a + "&" + b && a + "&" + b != ""
    ensures Split(a + "&" + b, '&') == [a, b]
  {
    assert a + "&" + b == a + ['&'] + b;
    SplitTwo(a, '&', b);
    NotInAround(a, '&', b, '#');
  }

  /** The tokens of a one-token fragment. */
  lemma ParseOneToken(u: string, a: string)
    requires '#' !in u && '#' !in a && '&' !in a && a != ""
    ensures Parse(u + "#" + a) == GitReference(u, SelectedRef([a]), SelectedPath([a]))
  {
    assert Split(a, '&') == [a];
    ParseFragment(u, a);
  }

  lemma PathTokenFree(p: string, c: char)
    requires c != ':' && c !in "path" && c !in p
    ensures c !in "path:" + p
  {
    assert forall k :: 5 <= k < |"path:" + p| ==> ("path:" + p)[k] == p[k - 5];
  }

  /** One ref token and one path token select that ref and that path, in
      either order. */
  lemma ParseRefAndPath(u: string, r: string, p: string)
    requires '#' !in u
    requires '#' !in r && '&' !in r && !IsPathToken(r)
    requires '#' !in p && '&' !in p
    ensures Parse(u + "#" + r + "&path:" + p) == GitReference(u, r, p)
    ensures Parse(u + "#path:" + p + "&" + r) == GitReference(u, r, p)
  {
    var pt := "path:" + p;
    PathTokenOf(p);
    PathTokenFree(p, '#');
    PathTokenFree(p, '&');
    SelectedOfTwo(r, pt);
    ParseTwoTokens(u, r, pt);
    assert u + "#" + r + "&path:" + p == u + "#" + r + "&" + pt;
    SelectedOfTwo(pt, r);
    ParseTwoTokens(u, pt, r);
    assert u + "#path:" + p + "&" + r == u + "#" + pt + "&" + r;
  }

  /** A lone ref token leaves the path at its default. */
  lemma ParseSingleRef(u: string, r: string)
    requires '#' !in u
    requires '#' !in r && '&' !in r && !IsPathToken(r) && r != ""
    ensures Parse(u + "#" + r) == GitReference(u, r, "/")
  {
    ParseOneToken(u, r);
    assert SelectedRef([r]) == r by {
      assert [r][..0] == [];
    }
    assert SelectedPath([r]) == "/" by {
      assert [r][..0] == [];
    }
  }

  /** A lone path token leaves the ref at its default. */
  lemma ParseSinglePath(u: string, p: string)
    requires '#' !in u
    requires '#' !in p && '&' !in p
    ensures Parse(u + "#path:" + p) == GitReference(u, "HEAD", p)
  {
    var pt := "path:" + p;
    PathTokenOf(p);
    PathTokenFree(p, '#');
    PathTokenFree(p, '&');
    ParseOneToken(u, pt);
    assert SelectedRef([pt]) == "HEAD" by {
      assert [pt][..0] == [];
    }
    assert SelectedPath([pt]) == p by {
      assert [pt][..0] == [];
    }
    assert u + "#path:" + p == u + "#" + pt;
  }

  /** Of two ref tokens the later wins. */
  lemma ParseLaterRefWins(u: string, a: string, b: string)
    requires '#' !in u
    requires '#' !in a && '&' !in a && '#' !in b && '&' !in b
    requires !IsPathToken(a) && !IsPathToken(b)
    ensures Parse(u + "#" + a + "&" + b) == GitReference(u, b, "/")
  {
    SelectedOfTwo(a, b);
    ParseTwoTokens(u, a, b);
  }

  /** Of two path tokens the later wins. */
  lemma ParseLaterPathWins(u: string, a: string, b: string)
    requires '#' !in u
    requires '#' !in a && '&' !in a && '#' !in b && '&' !in b
    ensures Parse(u + "#path:" + a + "&path:" + b) == GitReference(u, "HEAD", b)
  {
    var pa, pb := "path:" + a, "path:" + b;
    PathTokenOf(a);
    PathTokenOf(b);
    PathTokenFree(a, '#');
    PathTokenFree(a, '&');
    PathTokenFree(b, '#');
    PathTokenFree(b, '&');
    SelectedOfTwo(pa, pb);
    ParseTwoTokens(u, pa, pb);
    assert u + "#path:" + a + "&path:" + b == u + "#" + pa + "&" + pb;
  }

  // ---------------------------------------------------------------------------
  // isGitUrl

  predicate IsHostChar(c: char) {
    ('a' <= c <= 'z') || ('A' <= c <= 'Z') || ('0' <= c <= '9') || c == '_' || c == '.' || c == '-'
  }

  /** `/^git@[a-zA-Z0-9_.-]+:.+\.git$/`. The host class has no ':', so the
      host runs exactly to the first ':' after "git@". */
  predicate IsScpGitUrl(s: string) {
    StartsWith(s, "git@") && ':' in s[4..] &&
    var i := IndexOf(s[4..], ':');
    var host, rest := s[4..][..i], s[4..][i + 1..];
    |host| >= 1 && (forall k :: 0 <= k < |host| ==> IsHostChar(host[k])) &&
    |rest| >= 5 && EndsWith(rest, ".git") && NoLineTerminator(rest[..|rest| - 4])
  }

  /** `/^\.\.?\/.*\.git$/`. */
  predicate IsRelativeGitPath(s: string) {
    (StartsWith(s, "./") && |s| >= 6 && EndsWith(s, ".git") && NoLineTerminator(s[2..|s| - 4])) ||
    (StartsWith(s, "../") && |s| >= 7 && EndsWith(s, ".git") && NoLineTerminator(s[3..|s| - 4]))
  }

  /** `/^\/.*\.git$/`. */
  predicate IsAbsoluteGitPath(s: string) {
    StartsWith(s, "/") && |s| >= 5 && EndsWith(s, ".git") && NoLineTerminator(s[1..|s| - 4])
  }

  /** isGitUrl. */
  predicate IsGitUrl(s: string) {
    StartsWith(s, "https://") || StartsWith(s, "http://") || StartsWith(s, "git://") ||
    IsScpGitUrl(s) || IsRelativeGitPath(s) || IsAbsoluteGitPath(s)
  }

  /** Every Git URL contains a ':' or starts with '.' or '/'; so a package
      name such as "my-package" is never taken for a Git URL. */
  lemma GitUrlMarker(s: string)
    requires IsGitUrl(s)
    ensures ':' in s || s[0] == '.' || s[0] == '/'
  {
    if StartsWith(s, "https://") {
      assert s[5] == ':';
    } else if StartsWith(s, "http://") {
      assert s[4] == ':';
    } else if StartsWith(s, "git://") {
      assert s[3] == ':';
    } else if IsScpGitUrl(s) {
      assert s[4 + IndexOf(s[4..], ':')] == ':';
    }
  }

  /** Every Git URL either names a scheme or ends in ".git". */
  lemma GitUrlShape(s: string)
    requires IsGitUrl(s)
    ensures StartsWith(s, "https://") || StartsWith(s, "http://") || StartsWith(s, "git://") || EndsWith(s, ".git")
  {
    if IsScpGitUrl(s) {
      var i := IndexOf(s[4..], ':');
      var rest := s[4..][i + 1..];
      assert rest == s[5 + i..];
      assert s[|s| - 4..] == rest[|rest| - 4..];
    }
  }

  // ---------------------------------------------------------------------------
  // getRepoNameFromUrl

  /** The part of `s` before the first character of `stops`. */
  function UpTo(s: string, stops: set<char>): (r: string)
    ensures |r| <= |s| && r == s[..|r|]
    ensures forall k :: 0 <= k < |r| ==> r[k] !in stops
    ensures |r| < |s| ==> s[|r|] in stops
  {
    if s == [] || s[0] in stops then [] else [s[0]] + UpTo(s[1..], stops)
  }

  lemma {:induction false} UpToNone(a: string, stops: set<char>)
    requires forall k :: 0 <= k < |a| ==> a[k] !in stops
    ensures UpTo(a, stops) == a
  {
    if a != [] {
      UpToNone(a[1..], stops);
    }
  }

  lemma {:induction false} UpToBefore(a: string, c: char, b: string, stops: set<char>)
    requires forall k :: 0 <= k < |a| ==> a[k] !in stops
    requires c in stops
    ensures UpTo(a + [c] + b, stops) == a
  {
    if a != [] {
      assert (a + [c] + b)[1..] == a[1..] + [c] + b;
      UpToBefore(a[1..], c, b, stops);
    }
  }

  function DropLeadingSlashes(s: string): (r: string)
    ensures r == [] || r[0] != '/'
  {
    if s != [] && s[0] == '/' then DropLeadingSlashes(s[1..]) else s
  }

  predicate IsAlpha(c: char) {
    ('a' <= c <= 'z') || ('A' <= c <= 'Z')
  }

  predicate IsSchemeChar(c: char) {
    IsAlpha(c) || ('0' <= c <= '9') || c == '+' || c == '-' || c == '.'
  }

  function LowerAscii(s: string): string {
    if s == [] then []
    else [if 'A' <= s[0] <= 'Z' then (s[0] as int + 32) as char else s[0]] + LowerAscii(s[1..])
  }

  /** Where `new URL(s)` finds a scheme: the text before the first ':', when it
      is a letter followed by letters, digits, '+', '-' or '.'. */
  function SchemeLength(s: string): (r: Option<nat>)
    ensures r.Some? ==> 1 <= r.value < |s| && s[r.value] == ':'
  {
    if ':' !in s then None
    else
      var i := IndexOf(s, ':');
      if i >= 1 && IsAlpha(s[0]) && (forall k :: 1 <= k < i ==> IsSchemeChar(s[k])) then Some(i) else None
  }

  const SpecialSchemes: set<string> := {"http", "https", "ws", "wss", "ftp"}

  /** The pathname after an authority: from the first '/' to the first '?' or
      '#', empty when the authority is followed by a query, a fragment or nothing. */
  function PathAfterAuthority(s: string): string {
    var t := s[|UpTo(s, {'/', '?', '#'})|..];
    if t != [] && t[0] == '/' then UpTo(t, {'?', '#'}) else ""
  }

  /** The URL parser's path state on one segment: "." is dropped, ".."
      removes the segment before it, and either of them, when it is the last
      segment, leaves an empty segment at the end. */
  function PathStep(path: seq<string>, segment: string, last: bool): seq<string> {
    var tail := if last then [""] else [];
    if segment == ".." then (if path == [] then [] else path[..|path| - 1]) + tail
    else if segment == "." then path + tail
    else path + [segment]
  }

  function PathSegments(path: seq<string>, segments: seq<string>): seq<string>
    decreases |segments|
  {
    if segments == [] then path
    else PathSegments(PathStep(path, segments[0], |segments| == 1), segments[1..])
  }

  /** A URL path as the parser serialises it: each segment preceded by '/'. */
  function SerializePath(path: seq<string>): string {
    if path == [] then "" else "/" + JoinWith(path, '/')
  }

  /** The pathname made from the text of a path, empty or starting with '/':
      its segments with dot segments resolved. An empty path is "/" under a
      special scheme and stays empty otherwise. */
  function NormalizedPath(raw: string, special: bool): string {
    if raw == "" then (if special then "/" else "")
    else SerializePath(PathSegments([], Split(raw, '/')[1..]))
  }

  /** The path after an authority is empty or starts with '/'. */
  lemma PathAfterAuthorityShape(s: string)
    ensures PathAfterAuthority(s) == [] || PathAfterAuthority(s)[0] == '/'
  {
    var t := s[|UpTo(s, {'/', '?', '#'})|..];
    if t != [] && t[0] == '/' {
      assert UpTo(t, {'?', '#'}) == [t[0]] + UpTo(t[1..], {'?', '#'});
    }
  }

  /** The last segment always leaves at least one segment behind. */
  lemma {:induction false} PathSegmentsNonEmpty(path: seq<string>, segments: seq<string>)
    requires segments != []
    ensures PathSegments(path, segments) != []
    decreases |segments|
  {
    if |segments| > 1 {
      PathSegmentsNonEmpty(PathStep(path, segments[0], false), segments[1..]);
    }
  }

  /** A special URL's pathname is never empty and starts with '/'. */
  lemma SpecialPathShape(raw: string)
    requires raw == [] || raw[0] == '/'
    ensures NormalizedPath(raw, true) != [] && NormalizedPath(raw, true)[0] == '/'
  {
    if raw != [] {
      assert raw == [] + ['/'] + raw[1..];
      SplitAfter([], '/', raw[1..]);
      PathSegmentsNonEmpty([], Split(raw, '/')[1..]);
    }
  }

  /** `new URL(s).pathname`, or `None` where the constructor throws. A special
      scheme needs a non-empty host; a path after a host, or starting with '/',
      has its dot segments resolved; any other path is kept as written. */
  function UrlPathname(s: string): (r: Option<string>)
    ensures SchemeLength(s).None? ==> r.None?
    ensures SchemeLength(s).Some? && LowerAscii(s[..SchemeLength(s).value]) in SpecialSchemes && r.Some? ==>
      r.value != [] && r.value[0] == '/'
  {
    match SchemeLength(s)
    case None => None
    case Some(i) =>
      var scheme, rest := LowerAscii(s[..i]), s[i + 1..];
      if scheme in SpecialSchemes then
        var authority := DropLeadingSlashes(rest);
        if UpTo(authority, {'/', '?', '#'}) == [] then None
        else
          PathAfterAuthorityShape(authority);
          SpecialPathShape(PathAfterAuthority(authority));
          Some(NormalizedPath(PathAfterAuthority(authority), true))
      else if StartsWith(rest, "//") then Some(NormalizedPath(PathAfterAuthority(rest[2..]), false))
      else if StartsWith(rest, "/") then Some(NormalizedPath(UpTo(rest, {'?', '#'}), false))
      else Some(UpTo(rest, {'?', '#'}))
  }
  /** `b` as the lazy `[^/]+?` leaves it before an optional final ".git". */
  function LazyRepoPart(b: string): string {
    if |b| > 4 && EndsWith(b, ".git") then b[..|b| - 4] else b
  }

  /** The capture group of `gitUrl.match(/:([^/]+\/[^/]+?)(?:\.git)?$/)`,
      trying each ':' from position `from` on, leftmost first. */
  function ScpPathMatch(s: string, from: nat): Option<string>
    requires from <= |s|
    decreases |s| - from
  {
    if ':' !in s[from..] then None
    else
      var i := from + IndexOf(s[from..], ':');
      var pieces := Split(s[i + 1..], '/');
      if |pieces| == 2 && pieces[0] != "" && pieces[1] != "" then Some(pieces[0] + "/" + LazyRepoPart(pieces[1]))
      else ScpPathMatch(s, i + 1)
  }

  const UnknownRepo := "unknown-repo"

  /** The name getRepoNameFromUrl takes from a parsed URL's pathname: the
      last non-empty segment when there are at least two. */
  function RepoNameOfPathname(pathname: string): (name: string)
    ensures '/' !in name
  {
    var parts := NonEmptyParts(Split(pathname, '/'));
    if |parts| >= 2 then StripGitSuffix(Last(parts)) else UnknownRepo
  }

  /** The name getRepoNameFromUrl takes from a string `new URL` rejects: the
      repository part of an scp-style address, or else the last '/'-piece. */
  function RepoNameOfAddress(gitUrl: string): (name: string)
    ensures '/' !in name
  {
    var m := if '@' in gitUrl && ':' in gitUrl then ScpPathMatch(gitUrl, 0) else None;
    if m.Some? then StripGitSuffix(Last(Split(m.value, '/')))
    else StripGitSuffix(Last(Split(gitUrl, '/')))
  }

  /** getRepoNameFromUrl. Its outer `try` only guards against non-string input,
      so on strings the function is total. The name is always a single path
      segment. */
  function RepoNameFromUrl(gitUrl: string): (name: string)
    ensures '/' !in name
  {
    match UrlPathname(gitUrl)
    case Some(pathname) => RepoNameOfPathname(pathname)
    case None => RepoNameOfAddress(gitUrl)
  }

  lemma {:induction false} LowerAsciiOfLower(s: string)
    requires forall k :: 0 <= k < |s| ==> !('A' <= s[k] <= 'Z')
    ensures LowerAscii(s) == s
  {
    if s != [] {
      LowerAsciiOfLower(s[1..]);
    }
  }

  predicate NoneOf(s: string, stops: set<char>) {
    forall k :: 0 <= k < |s| ==> s[k] !in stops
  }

  lemma NoneOfConcat(a: string, b: string, stops: set<char>)
    requires NoneOf(a, stops) && NoneOf(b, stops)
    ensures NoneOf(a + b, stops)
  {
    assert forall k :: |a| <= k < |a + b| ==> (a + b)[k] == b[k - |a|];
  }

  /** A scheme as the URL parser accepts it: a letter, then letters, digits,
      '+', '-' or '.'. */
  predicate IsScheme(scheme: string) {
    scheme != [] && IsAlpha(scheme[0]) && forall k :: 1 <= k < |scheme| ==> IsSchemeChar(scheme[k])
  }

  /** A well-formed scheme before the first ':' is found as the scheme. */
  lemma SchemeOf(scheme: string, rest: string)
    requires IsScheme(scheme)
    ensures SchemeLength(scheme + ":" + rest) == Some(|scheme|)
    ensures (scheme + ":" + rest)[..|scheme|] == scheme
    ensures (scheme + ":" + rest)[|scheme| + 1..] == rest
  {
    var s := scheme + ":" + rest;
    assert ':' !in scheme by {
      assert forall k :: 0 <= k < |scheme| ==> IsSchemeChar(scheme[k]);
    }
    assert s == scheme + [':'] + rest;
    IndexOfAfter(scheme, ':', rest);
    assert forall k :: 1 <= k < |scheme| ==> s[k] == scheme[k];
  }

  lemma DropTwoSlashes(x: string)
    requires x == [] || x[0] != '/'
    ensures DropLeadingSlashes("//" + x) == x
  {
    assert ("//" + x)[1..] == "/" + x;
    assert ("/" + x)[1..] == x;
    assert DropLeadingSlashes("//" + x) == DropLeadingSlashes("/" + x);
    assert DropLeadingSlashes("/" + x) == DropLeadingSlashes(x);
  }

  /** After the slashes of an https URL: a non-empty host, then a path
      without query or fragment. */
  lemma AuthorityPathname(host: string, path: string)
    requires host != [] && NoneOf(host, {'/', '?', '#'})
    requires (path == [] || path[0] == '/') && NoneOf(path, {'?', '#'})
    ensures UpTo(host + path, {'/', '?', '#'}) == host
    ensures PathAfterAuthority(host + path) == path
  {
    if path == [] {
      UpToNone(host, {'/', '?', '#'});
      assert host + path == host;
    } else {
      assert host + path == host + [path[0]] + path[1..];
      UpToBefore(host, path[0], path[1..], {'/', '?', '#'});
      assert (host + path)[|host|..] == path;
      UpToNone(path, {'?', '#'});
    }
  }

  /** `scheme://host` followed by a path without query or fragment: the
      pathname is that path with its dot segments resolved. */
  lemma SchemeUrlPathname(scheme: string, host: string, raw: string)
    requires IsScheme(scheme)
    requires host != [] && NoneOf(host, {'/', '?', '#'})
    requires (raw == [] || raw[0] == '/') && NoneOf(raw, {'?', '#'})
    ensures UrlPathname(scheme + "://" + host + raw) == Some(NormalizedPath(raw, LowerAscii(scheme) in SpecialSchemes))
  {
    var rest := "//" + (host + raw);
    SchemeUrlText(scheme, host, raw);
    SchemeOf(scheme, rest);
    AuthorityPathname(host, raw);
    if LowerAscii(scheme) in SpecialSchemes {
      assert host[0] != '/';
      DropTwoSlashes(host + raw);
    } else {
      assert rest[..2] == "//" && rest[2..] == host + raw;
    }
  }

  lemma SchemeUrlText(scheme: string, host: string, raw: string)
    ensures UrlPathname(scheme + "://" + host + raw) == UrlPathname(scheme + ":" + ("//" + (host + raw)))
  {
    assert scheme + "://" + host + raw == scheme + ":" + ("//" + (host + raw));
  }

  /** A segment of a path other than the last. */
  predicate SegmentText(segment: string) {
    NoneOf(segment, {'/', '?', '#'})
  }

  /** A path segment the URL parser keeps as it is and `filter(Boolean)` keeps. */
  predicate IsPlainSegment(segment: string) {
    segment != "" && segment != "." && segment != ".." && SegmentText(segment)
  }

  predicate PlainSegments(segments: seq<string>) {
    forall k :: 0 <= k < |segments| ==> IsPlainSegment(segments[k])
  }

  /** The name getRepoNameFromUrl takes from a pathname of these non-empty
      segments. */
  function NameOfSegments(segments: seq<string>): string {
    if |segments| >= 2 then StripGitSuffix(Last(segments)) else UnknownRepo
  }

  lemma NoneOfNotIn(s: string, stops: set<char>, c: char)
    requires NoneOf(s, stops) && c in stops
    ensures c !in s
  {
    assert forall k :: 0 <= k < |s| ==> s[k] != c;
  }

  lemma {:induction false} JoinWithNoneOf(parts: seq<string>, c: char, stops: set<char>)
    requires c !in stops
    requires forall k :: 0 <= k < |parts| ==> NoneOf(parts[k], stops)
    ensures NoneOf(JoinWith(parts, c), stops)
  {
    if |parts| >= 2 {
      var rest := parts[1..];
      assert forall k :: 0 <= k < |rest| ==> NoneOf(rest[k], stops) by {
        forall k | 0 <= k < |rest| ensures NoneOf(rest[k], stops) {
          assert rest[k] == parts[k + 1];
        }
      }
      JoinWithNoneOf(rest, c, stops);
      NoneOfConcat(parts[0], [c], stops);
      NoneOfConcat(parts[0] + [c], JoinWith(rest, c), stops);
    }
  }

  /** A serialised path of segment texts starts with '/', has no query or
      fragment, and splits back into its segments. */
  lemma SerializedShape(parts: seq<string>)
    requires forall k :: 0 <= k < |parts| ==> SegmentText(parts[k])
    ensures SerializePath(parts) == [] || SerializePath(parts)[0] == '/'
    ensures NoneOf(SerializePath(parts), {'?', '#'})
    ensures parts != [] ==> Split(SerializePath(parts), '/') == [""] + parts
  {
    if parts != [] {
      var j := JoinWith(parts, '/');
      JoinWithNoneOf(parts, '/', {'?', '#'});
      NoneOfConcat("/", j, {'?', '#'});
      forall k | 0 <= k < |parts| ensures '/' !in parts[k] {
        NoneOfNotIn(parts[k], {'/', '?', '#'}, '/');
      }
      assert SerializePath(parts) == [] + ['/'] + j;
      SplitAfter([], '/', j);
      SplitJoinWith(parts, '/');
    }
  }

  lemma {:induction false} PathSegmentsPlain(path: seq<string>, segments: seq<string>, tail: seq<string>)
    requires PlainSegments(segments)
    ensures PathSegments(path, segments + tail) == PathSegments(path + segments, tail)
    decreases |segments|
  {
    if segments == [] {
      assert segments + tail == tail;
      assert path + segments == path;
    } else {
      var rest := segments[1..];
      assert (segments + tail)[0] == segments[0];
      assert (segments + tail)[1..] == rest + tail;
      assert PathStep(path, segments[0], |segments + tail| == 1) == path + [segments[0]];
      assert PlainSegments(rest) by {
        forall k | 0 <= k < |rest| ensures IsPlainSegment(rest[k]) {
          assert rest[k] == segments[k + 1];
        }
      }
      PathSegmentsPlain(path + [segments[0]], rest, tail);
      assert path + [segments[0]] + rest == path + segments;
    }
  }

  /** Plain segments come out of the parser unchanged. */
  lemma NormalizedPlainPath(segments: seq<string>, special: bool)
    requires PlainSegments(segments)
    ensures NormalizedPath(SerializePath(segments), special) ==
      if segments == [] then (if special then "/" else "") else SerializePath(segments)
  {
    if segments != [] {
      SerializedShape(segments);
      assert ([""] + segments)[1..] == segments;
      PathSegmentsPlain([], segments, []);
      assert segments + [] == segments && [] + segments == segments;
    }
  }

  lemma {:induction false} NonEmptyPartsOfNonEmpty(parts: seq<string>)
    requires forall k :: 0 <= k < |parts| ==> parts[k] != ""
    ensures NonEmptyParts(parts) == parts
  {
    if parts != [] {
      assert forall k :: 0 <= k < |parts[1..]| ==> parts[1..][k] != "" by {
        forall k | 0 <= k < |parts[1..]| ensures parts[1..][k] != "" {
          assert parts[1..][k] == parts[k + 1];
        }
      }
      NonEmptyPartsOfNonEmpty(parts[1..]);
    }
  }

  lemma {:induction false} NonEmptyPartsAppendEmpty(parts: seq<string>)
    ensures NonEmptyParts(parts + [""]) == NonEmptyParts(parts)
  {
    if parts == [] {
      assert [] + [""] == [""];
      assert [""][1..] == [];
    } else {
      assert (parts + [""])[0] == parts[0];
      assert (parts + [""])[1..] == parts[1..] + [""];
      NonEmptyPartsAppendEmpty(parts[1..]);
    }
  }

  /** The name taken from a pathname of plain segments, with or without an
      empty segment (a final '/') after them. */
  lemma RepoNameOfSegments(segments: seq<string>)
    requires PlainSegments(segments)
    ensures RepoNameOfPathname(SerializePath(segments)) == NameOfSegments(segments)
    ensures RepoNameOfPathname(SerializePath(segments + [""])) == NameOfSegments(segments)
  {
    var withSlash := segments + [""];
    assert forall k :: 0 <= k < |withSlash| ==> SegmentText(withSlash[k]) by {
      forall k | 0 <= k < |withSlash| ensures SegmentText(withSlash[k]) {
        if k < |segments| {
          assert withSlash[k] == segments[k];
        } else {
          assert withSlash[k] == "";
        }
      }
    }
    SerializedShape(withSlash);
    assert NonEmptyParts([""] + withSlash) == NonEmptyParts(withSlash) by {
      assert ([""] + withSlash)[1..] == withSlash;
    }
    NonEmptyPartsAppendEmpty(segments);
    NonEmptyPartsOfNonEmpty(segments);
    if segments == [] {
      assert Split("", '/') == [""];
      assert NonEmptyParts([""]) == NonEmptyParts([]);
    } else {
      SerializedShape(segments);
      assert ([""] + segments)[1..] == segments;
    }
  }

  lemma PathnameNames(pathname: string)
    requires pathname == "/" || pathname == ""
    ensures RepoNameOfPathname(pathname) == UnknownRepo
  {
    assert Split("", '/') == [""];
    assert NonEmptyParts([""]) == NonEmptyParts([]);
    if pathname == "/" {
      assert "/" == "" + ['/'] + "";
      SplitTwo("", '/', "");
      assert NonEmptyParts(["", ""]) == NonEmptyParts([""]);
    }
  }

  /** A URL `scheme://host/s1/…/sn` of plain segments, under any scheme:
      the last segment without ".git" when there are two or more, and
      "unknown-repo" when there are fewer. */
  lemma RepoNameOfSchemeUrl(scheme: string, host: string, segments: seq<string>)
    requires IsScheme(scheme)
    requires host != [] && NoneOf(host, {'/', '?', '#'})
    requires PlainSegments(segments)
    ensures RepoNameFromUrl(scheme + "://" + host + SerializePath(segments)) == NameOfSegments(segments)
  {
    var raw := SerializePath(segments);
    SerializedShape(segments);
    SchemeUrlPathname(scheme, host, raw);
    NormalizedPlainPath(segments, LowerAscii(scheme) in SpecialSchemes);
    RepoNameOfSegments(segments);
    if segments == [] {
      PathnameNames(NormalizedPath(raw, LowerAscii(scheme) in SpecialSchemes));
    }
  }

  /** `scheme://host/owner/repo` names `repo` without its ".git". */
  lemma RepoNameOfOwnerRepoUrl(scheme: string, host: string, owner: string, repo: string)
    requires IsScheme(scheme)
    requires host != [] && NoneOf(host, {'/', '?', '#'})
    requires IsPlainSegment(owner) && IsPlainSegment(repo)
    ensures RepoNameFromUrl(scheme + "://" + host + "/" + owner + "/" + repo) == StripGitSuffix(repo)
  {
    var segments := [owner, repo];
    assert JoinWith(segments, '/') == owner + ['/'] + repo by {
      assert segments[1..] == [repo];
    }
    assert scheme + "://" + host + "/" + owner + "/" + repo == scheme + "://" + host + SerializePath(segments);
    RepoNameOfSchemeUrl(scheme, host, segments);
  }

  lemma DotSegmentShape(segments: seq<string>, dot: string)
    requires PlainSegments(segments) && (dot == "." || dot == "..")
    ensures var raw := SerializePath(segments + [dot]);
      && raw != [] && raw[0] == '/' && NoneOf(raw, {'?', '#'})
      && Split(raw, '/')[1..] == segments + [dot]
  {
    var parts := segments + [dot];
    assert forall k :: 0 <= k < |parts| ==> SegmentText(parts[k]) by {
      forall k | 0 <= k < |parts| ensures SegmentText(parts[k]) {
        if k < |segments| {
          assert parts[k] == segments[k];
        }
      }
    }
    SerializedShape(parts);
    assert ([""] + parts)[1..] == parts;
  }

  /** A final "." segment leaves a final '/', so the name is that of the
      segments before it. */
  lemma RepoNameIgnoresFinalDot(scheme: string, host: string, segments: seq<string>)
    requires IsScheme(scheme)
    requires host != [] && NoneOf(host, {'/', '?', '#'})
    requires PlainSegments(segments)
    ensures RepoNameFromUrl(scheme + "://" + host + SerializePath(segments + ["."])) == NameOfSegments(segments)
  {
    var raw := SerializePath(segments + ["."]);
    DotSegmentShape(segments, ".");
    SchemeUrlPathname(scheme, host, raw);
    PathSegmentsPlain([], segments, ["."]);
    assert [] + segments == segments;
    assert PathSegments(segments, ["."]) == segments + [""] by {
      assert ["."][1..] == [];
    }
    RepoNameOfSegments(segments);
  }

  /** A final ".." segment drops the segment before it, leaving a final '/'. */
  lemma RepoNameOfFinalDotDot(scheme: string, host: string, segments: seq<string>)
    requires IsScheme(scheme)
    requires host != [] && NoneOf(host, {'/', '?', '#'})
    requires PlainSegments(segments) && segments != []
    ensures RepoNameFromUrl(scheme + "://" + host + SerializePath(segments + [".."])) ==
      NameOfSegments(segments[..|segments| - 1])
  {
    var raw := SerializePath(segments + [".."]);
    var kept := segments[..|segments| - 1];
    DotSegmentShape(segments, "..");
    SchemeUrlPathname(scheme, host, raw);
    PathSegmentsPlain([], segments, [".."]);
    assert [] + segments == segments;
    assert PathSegments(segments, [".."]) == kept + [""] by {
      assert [".."][1..] == [];
    }
    assert PlainSegments(kept) by {
      forall k | 0 <= k < |kept| ensures IsPlainSegment(kept[k]) {
        assert kept[k] == segments[k];
      }
    }
    RepoNameOfSegments(kept);
  }

  /** A string whose first ':' follows an '@' has no URL scheme. */
  lemma NoSchemeBeforeAt(pre: string, rest: string)
    requires '@' in pre && ':' !in pre
    ensures UrlPathname(pre + ":" + rest) == None
  {
    var s := pre + ":" + rest;
    assert s == pre + [':'] + rest;
    IndexOfAfter(pre, ':', rest);
    var k :| 0 <= k < |pre| && pre[k] == '@';
    assert s[k] == '@';
  }

  /** The address pattern matches at the first ':' when what follows it is
      two non-empty '/'-free pieces. */
  lemma ScpMatchAtFirstColon(pre: string, owner: string, b: string)
    requires ':' !in pre
    requires owner != "" && b != "" && '/' !in owner && '/' !in b
    ensures ScpPathMatch(pre + ":" + (owner + "/" + b), 0) == Some(owner + "/" + LazyRepoPart(b))
  {
    var tail := owner + "/" + b;
    var s := pre + ":" + tail;
    assert s == pre + [':'] + tail;
    IndexOfAfter(pre, ':', tail);
    assert s[0..] == s;
    assert s[|pre| + 1..] == tail;
    assert tail == owner + ['/'] + b;
    SplitTwo(owner, '/', b);
  }

  lemma ScpMatchesOwnerName(pre: string, owner: string, b: string)
    requires '@' in pre && ':' !in pre
    requires owner != "" && b != "" && '/' !in owner && '/' !in b
    ensures RepoNameFromUrl(pre + ":" + (owner + "/" + b)) == StripGitSuffix(Last(Split(owner + "/" + LazyRepoPart(b), '/')))
  {
    var s := pre + ":" + (owner + "/" + b);
    NoSchemeBeforeAt(pre, owner + "/" + b);
    ScpMatchAtFirstColon(pre, owner, b);
    assert '@' in s && ':' in s by {
      var k :| 0 <= k < |pre| && pre[k] == '@';
      assert s[k] == '@';
      assert s[|pre|] == ':';
    }
  }

  /** The last piece of `owner/name` is `name`, which has no ".git" to strip. */
  lemma OwnerNameTail(owner: string, name: string)
    requires '/' !in owner && '/' !in name && !EndsWith(name, ".git")
    ensures StripGitSuffix(Last(Split(owner + "/" + name, '/'))) == name
  {
    assert owner + "/" + name == owner + ['/'] + name;
    SplitTwo(owner, '/', name);
  }

  lemma LazyRepoPartOfSuffixed(name: string)
    requires name != ""
    ensures LazyRepoPart(name + ".git") == name
  {
    var b := name + ".git";
    assert b[|b| - 4..] == ".git";
    assert b[..|b| - 4] == name;
  }

  /** An scp-style address `user@host:owner/name.git` names `name`. */
  lemma RepoNameOfScpUrl(user: string, host: string, owner: string, name: string)
    requires ':' !in user && ':' !in host
    requires owner != "" && name != "" && '/' !in owner && '/' !in name
    requires !EndsWith(name, ".git")
    ensures RepoNameFromUrl(user + "@" + host + ":" + owner + "/" + name + ".git") == name
  {
    var pre := user + "@" + host;
    assert pre + ":" + owner + "/" + name + ".git" == pre + ":" + (owner + "/" + (name + ".git"));
    ScpUserAtHost(user, host);
    assert '/' !in name + ".git";
    ScpMatchesOwnerName(pre, owner, name + ".git");
    LazyRepoPartOfSuffixed(name);
    OwnerNameTail(owner, name);
  }

  /** The same address without ".git" names the same repository. */
  lemma RepoNameOfScpUrlWithoutSuffix(user: string, host: string, owner: string, name: string)
    requires ':' !in user && ':' !in host
    requires owner != "" && name != "" && '/' !in owner && '/' !in name
    requires !EndsWith(name, ".git")
    ensures RepoNameFromUrl(user + "@" + host + ":" + owner + "/" + name) == name
  {
    var pre := user + "@" + host;
    assert pre + ":" + owner + "/" + name == pre + ":" + (owner + "/" + name);
    ScpUserAtHost(user, host);
    ScpMatchesOwnerName(pre, owner, name);
    OwnerNameTail(owner, name);
  }

  lemma ScpUserAtHost(user: string, host: string)
    requires ':' !in user && ':' !in host
    ensures '@' in user + "@" + host && ':' !in user + "@" + host
  {
    assert (user + "@" + host)[|user|] == '@';
    NotInAround(user, '@', host, ':');
  }

  // ---------------------------------------------------------------------------
  // cloneRepo

  predicate IsLowerHexDigit(c: char) {
    ('0' <= c <= '9') || ('a' <= c <= 'f')
  }

  /** `/^[0-9a-f]{40}$/`: a full commit hash, in lower case. */
  predicate IsCommitHash(ref: string) {
    |ref| == 40 && forall k :: 0 <= k < 40 ==> IsLowerHexDigit(ref[k])
  }

  /** The options passed to `git clone` and whether a checkout follows. */
  datatype ClonePlan = ClonePlan(options: seq<string>, checkout: bool)

  /** cloneRepo's choice of clone options: a commit hash is cloned in full,
      anything else shallowly, naming the branch unless it is "HEAD". */
  function PlanClone(ref: string): (p: ClonePlan)
    ensures IsCommitHash(ref) ==> p == ClonePlan([], true)
    ensures !IsCommitHash(ref) && ref == "HEAD" ==> p == ClonePlan(["--depth=1", "--single-branch"], true)
    ensures !IsCommitHash(ref) && ref != "HEAD" ==> p == ClonePlan(["--depth=1", "--single-branch", "--branch", ref], false)
    ensures p.checkout <==> "--branch" !in p.options
  {
    var useShallow := !IsCommitHash(ref);
    var cloneOptions := if useShallow then ["--depth=1", "--single-branch"] else [];
    var cloneOptions := if ref != "HEAD" && useShallow then cloneOptions + ["--branch", ref] else cloneOptions;
    ClonePlan(cloneOptions, (ref != "HEAD" && !useShallow) || (useShallow && "--branch" !in cloneOptions))
  }

  /** A branch or tag is cloned shallowly on that branch, with no checkout. */
  lemma PlanCloneOfBranch()
    ensures PlanClone("main") == ClonePlan(["--depth=1", "--single-branch", "--branch", "main"], false)
  {
  }

  /** An upper-case hash does not count as a commit hash. */
  lemma PlanCloneOfUpperCaseHash()
    ensures PlanClone("ABCDEF7890123456789012345678901234567890") ==
      ClonePlan(["--depth=1", "--single-branch", "--branch", "ABCDEF7890123456789012345678901234567890"], false)
  {
    assert !IsLowerHexDigit("ABCDEF7890123456789012345678901234567890"[0]);
  }

  /** The clone options tell refs apart, except that every commit hash is
      cloned with none; commit hashes are told apart by the checkout after. */
  lemma PlanCloneDeterminesRef(a: string, b: string)
    requires PlanClone(a).options == PlanClone(b).options
    ensures a == b || (IsCommitHash(a) && IsCommitHash(b))
  {
    if !IsCommitHash(a) && !IsCommitHash(b) && a != "HEAD" && b != "HEAD" {
      assert PlanClone(a).options[3] == a && PlanClone(b).options[3] == b;
    }
  }

  const CloneFailedPrefix := "Git clone failed: "

  /** cloneRepo: takes the next temporary directory, clones into it, checks
      out the ref where the plan says so, and answers the directory. Any
      failure is rethrown with the prefix "Git clone failed: ". */
  function CloneRepo(h: Host, w: World, url: string, ref: string): (res: (World, Result<Path>))
    ensures res.0.temps == w.temps + 1
    ensures res.1.Ok? <==>
      h.cloneError(url, PlanClone(ref).options).None? && (PlanClone(ref).checkout ==> h.checkoutError(url, ref).None?)
    ensures res.1.Ok? ==> res.1.value == h.tempDir(w.temps)
    ensures res.1.Ok? ==>
      res.0.log == w.log + [GitClone(url, h.tempDir(w.temps), PlanClone(ref).options)] +
                   (if PlanClone(ref).checkout then [GitCheckout(h.tempDir(w.temps), ref)] else [])
    ensures h.cloneError(url, PlanClone(ref).options).Some? ==>
      && res.0.log == w.log + [GitClone(url, h.tempDir(w.temps), PlanClone(ref).options)]
      && res.1 == Err(CloneFailedPrefix + h.cloneError(url, PlanClone(ref).options).value)
    ensures h.cloneError(url, PlanClone(ref).options).None? && PlanClone(ref).checkout && h.checkoutError(url, ref).Some? ==>
      && res.0.log == w.log + [GitClone(url, h.tempDir(w.temps), PlanClone(ref).options), GitCheckout(h.tempDir(w.temps), ref)]
      && res.1 == Err(CloneFailedPrefix + h.checkoutError(url, ref).value)
    ensures res.1.Err? ==> StartsWith(res.1.error, CloneFailedPrefix)
  {
    var dir := h.tempDir(w.temps);
    var plan := PlanClone(ref);
    var cloned := World(w.fs[dir := Dir], w.temps + 1, w.log + [GitClone(url, dir, plan.options)]);
    match h.cloneError(url, plan.options)
    case Some(m) => (cloned, Err(CloneFailedPrefix + m))
    case None =>
      if !plan.checkout then (cloned.(fs := cloned.fs + Relocated(h.tree(url, ref), [], dir)), Ok(dir))
      else
        var checkedOut := cloned.(log := cloned.log + [GitCheckout(dir, ref)]);
        match h.checkoutError(url, ref)
        case Some(m) => (checkedOut, Err(CloneFailedPrefix + m))
        case None => (checkedOut.(fs := checkedOut.fs + Relocated(h.tree(url, ref), [], dir)), Ok(dir))
  }

  /** A successful clone holds the repository's files at the ref below the
      temporary directory. */
  lemma CloneRepoHoldsTree(h: Host, w: World, url: string, ref: string, p: Path)
    requires CloneRepo(h, w, url, ref).1.Ok? && p in h.tree(url, ref)
    ensures h.tempDir(w.temps) + p in CloneRepo(h, w, url, ref).0.fs
    ensures CloneRepo(h, w, url, ref).0.fs[h.tempDir(w.temps) + p] == h.tree(url, ref)[p]
  {
    var root: Path := [];
    assert IsPrefixOf(root, p) && p[|root|..] == p;
  }

  /** Cloning changes nothing outside the temporary directory. */
  lemma CloneRepoKeepsOthers(h: Host, w: World, url: string, ref: string, p: Path)
    requires p in w.fs && !IsPrefixOf(h.tempDir(w.temps), p)
    ensures p in CloneRepo(h, w, url, ref).0.fs
    ensures CloneRepo(h, w, url, ref).0.fs[p] == w.fs[p]
  {
  }

  // ---------------------------------------------------------------------------
  // extractFiles and getPackageName

  /** `path.join(repoDir, subPath === "/" ? "" : subPath)`. */
  function SourcePath(repoDir: Path, subPath: string): Path {
    Join(repoDir, if subPath == "/" then "" else subPath)
  }

  /** The root subpath selects the repository itself; "/name" selects its
      child `name`. */
  lemma SourcePathOf(repoDir: Path, name: string)
    requires IsName(name)
    ensures SourcePath(repoDir, "/") == repoDir
    ensures SourcePath(repoDir, "/" + name) == repoDir + [name]
  {
    JoinEmpty(repoDir);
    assert Split("/" + name, '/') == ["", name] by {
      assert "/" + name == "" + ['/'] + name;
      SplitTwo("", '/', name);
    }
    assert JoinSegments(repoDir, ["", name]) == JoinSegments(repoDir, [name]) by {
      assert ["", name][1..] == [name];
    }
    JoinName(repoDir, name);
    assert Split(name, '/') == [name];
  }

  function MissingSourceMessage(subPath: string): string {
    "Source path " + subPath + " does not exist in the repository"
  }

  /** extractFiles: fails, changing nothing, when the source is missing;
      otherwise creates the destination and copies the source's contents
      into it. */
  function ExtractFiles(w: World, repoDir: Path, subPath: string, destDir: Path): (res: (World, Result<()>))
    ensures var (w', r) := res; var src := SourcePath(repoDir, subPath);
      && (r.Err? <==> src !in w.fs)
      && (r.Err? ==> w' == w && r.error == MissingSourceMessage(subPath))
      && (r.Ok? ==> w'.temps == w.temps && w'.log == w.log + [EnsureDir(destDir), Copy(src, destDir)])
  {
    var src := SourcePath(repoDir, subPath);
    if src !in w.fs then (w, Err(MissingSourceMessage(subPath)))
    else
      var made := WithDirectory(w.fs, destDir);
      (World(CopiedInto(made, src, destDir), w.temps, w.log + [EnsureDir(destDir), Copy(src, destDir)]), Ok(()))
  }

  /** After extracting, the destination exists and holds a copy of every
      entry below the source (one the destination did not already contain). */
  lemma ExtractFilesCopies(w: World, repoDir: Path, subPath: string, destDir: Path, p: Path)
    requires ExtractFiles(w, repoDir, subPath, destDir).1.Ok?
    requires p in w.fs && IsPrefixOf(SourcePath(repoDir, subPath), p) && !IsPrefixOf(destDir, p)
    ensures destDir == [] || destDir in ExtractFiles(w, repoDir, subPath, destDir).0.fs
    ensures destDir + p[|SourcePath(repoDir, subPath)|..] in ExtractFiles(w, repoDir, subPath, destDir).0.fs
    ensures ExtractFiles(w, repoDir, subPath, destDir).0.fs[destDir + p[|SourcePath(repoDir, subPath)|..]] == w.fs[p]
  {
  }

  /** Extracting changes nothing outside the destination. */
  lemma ExtractFilesKeepsOthers(w: World, repoDir: Path, subPath: string, destDir: Path, p: Path)
    requires p in w.fs && !IsPrefixOf(destDir, p)
    ensures p in ExtractFiles(w, repoDir, subPath, destDir).0.fs
    ensures ExtractFiles(w, repoDir, subPath, destDir).0.fs[p] == w.fs[p]
  {
  }

  /** `path.join(repoDir, subPath === "/" ? "" : subPath, "package.json")`. */
  function PackageJsonIn(repoDir: Path, subPath: string): Path {
    SourcePath(repoDir, subPath) + ["package.json"]
  }

  /** getPackageName: the truthy `name` of the package.json under the
      subpath; `None` (null) when the file is missing, unreadable or has no name. */
  function GetPackageName(fs: FileSystem, repoDir: Path, subPath: string): (r: Option<string>)
    ensures var p := PackageJsonIn(repoDir, subPath);
      && (r.Some? <==> p in fs && fs[p].JsonFile? && Truthy(fs[p].json.name))
      && (r.Some? ==> r == fs[p].json.name)
  {
    var packageJsonPath := PackageJsonIn(repoDir, subPath);
    if packageJsonPath !in fs then None
    else match ReadJson(fs, packageJsonPath)
      case Err(_) => None
      case Ok(packageJson) => if Truthy(packageJson.name) then packageJson.name else None
  }
}
