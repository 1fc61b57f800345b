/**
  * The GitHub REST helpers: splitting a repository URL into base URL, owner and repository
  * (the URL read as scheme, authority and path, after section 3 of RFC 3986, the way `urlparse`
  * of Python's `urllib.parse` reads it: blanks stripped in front, tab, CR and LF removed, and
  * `;params` cut from the last path segment), the API endpoint of github.com or of an
  * enterprise server, the authorization header, and the request for one file's content at a ref.
  */
module GitApi {
  import opened Wrappers
  import opened Text

  // ---------------------------------------------------------------------------------------------
  // Reading a URL
  // ---------------------------------------------------------------------------------------------

  predicate IsAsciiLetter(c: char)
  {
    ('a' <= c <= 'z') || ('A' <= c <= 'Z')
  }

  /** A character allowed in a scheme: an ASCII letter, a digit, '+', '-' or '.'. */
  predicate IsSchemeChar(c: char)
  {
    IsAsciiLetter(c) || ('0' <= c <= '9') || c == '+' || c == '-' || c == '.'
  }

  /** Where the run of scheme characters from `i` ends. */
  function SchemeEnd(s: string, i: nat): (e: nat)
    requires i <= |s|
    ensures i <= e <= |s| && (e < |s| ==> !IsSchemeChar(s[e]))
    ensures forall k :: i <= k < e ==> IsSchemeChar(s[k])
    decreases |s| - i
  {
    if i < |s| && IsSchemeChar(s[i]) then SchemeEnd(s, i + 1) else i
  }

  /** Where the run from `i` ends: at the first character in `stops`, or at the end. */
  function RunEnd(s: string, i: nat, stops: string): (e: nat)
    requires i <= |s|
    ensures i <= e <= |s| && (e < |s| ==> s[e] in stops)
    ensures forall k :: i <= k < e ==> s[k] !in stops
    decreases |s| - i
  {
    if i < |s| && s[i] !in stops then RunEnd(s, i + 1, stops) else i
  }

  /** The characters stripped from the front of a URL: the C0 controls and the space. */
  predicate IsC0OrSpace(c: char)
  {
    c <= ' '
  }

  /** The URL without its leading C0 controls and spaces. */
  function LStripC0(s: string): (r: string)
    ensures |r| <= |s| && r == s[|s| - |r|..]
    ensures r == [] || !IsC0OrSpace(r[0])
    ensures forall k :: 0 <= k < |s| - |r| ==> IsC0OrSpace(s[k])
  {
    if s != [] && IsC0OrSpace(s[0]) then LStripC0(s[1..]) else s
  }

  /** Tab, carriage return and line feed: removed wherever they occur in a URL. */
  const UnsafeChars: string := "\t\r\n"

  /** The URL with every tab, carriage return and line feed removed. */
  function RemoveUnsafe(s: string): (r: string)
    ensures forall k :: 0 <= k < |r| ==> r[k] !in UnsafeChars
    ensures multiset(r) <= multiset(s)
    ensures (forall k :: 0 <= k < |s| ==> s[k] !in UnsafeChars) ==> r == s
  {
    if s == [] then []
    else
      assert s == [s[0]] + s[1..];
      (if s[0] in UnsafeChars then [] else [s[0]]) + RemoveUnsafe(s[1..])
  }

  /** What `urlsplit` reads: the URL stripped in front and cleared of tab, CR and LF. */
  function Cleaned(url: string): string
  {
    RemoveUnsafe(LStripC0(url))
  }

  /** The three parts of a URL that the helpers use. */
  datatype UrlParts = UrlParts(scheme: string, netloc: string, path: string)

  /**
    * `urlsplit` on cleaned text, reduced to scheme, network location and path. A scheme is present
    * when the text before the first ':' is a letter followed by scheme characters; it is
    * lower-cased. The network location follows a leading "//" up to the first '/', '?' or '#'; the
    * path runs up to the first '?' or '#'.
    */
  function SplitUrl(url: string): UrlParts
  {
    var e := SchemeEnd(url, 0);
    var hasScheme := 0 < e < |url| && url[e] == ':' && IsAsciiLetter(url[0]);
    var scheme := if hasScheme then Lower(url[..e]) else "";
    var rest := if hasScheme then url[e + 1..] else url;
    if |rest| >= 2 && rest[0] == '/' && rest[1] == '/' then
      var d := RunEnd(rest, 2, "/?#");
      UrlParts(scheme, rest[2..d], rest[d..RunEnd(rest, d, "?#")])
    else UrlParts(scheme, "", rest[..RunEnd(rest, 0, "?#")])
  }

  /** The schemes whose paths may carry `;params`. */
  const UsesParams: set<string> :=
    {"", "ftp", "hdl", "prospero", "http", "imap", "https", "shttp", "rtsp", "rtsps", "rtspu", "sip", "sips",
     "mms", "sftp", "tel"}

  /** The index of the last '/' of `s`, or -1 when it has none. */
  function LastSlash(s: string): (i: int)
    ensures -1 <= i < |s| && (i >= 0 ==> s[i] == '/')
    ensures forall k :: i < k < |s| ==> s[k] != '/'
  {
    if s == [] then -1
    else if s[|s| - 1] == '/' then |s| - 1
    else LastSlash(s[..|s| - 1])
  }

  /**
    * `_splitparams`: the path up to the first ';' at or after its last '/', or up to its first ';'
    * when it holds no '/'.
    */
  function SplitParams(path: string): (r: string)
    ensures IsPrefix(r, path)
    ensures |r| < |path| ==> path[|r|] == ';' && forall k :: |r| <= k < |path| ==> path[k] != '/'
    ensures forall k :: 0 <= k < |r| && r[k] == ';' ==> exists j :: k < j < |r| && r[j] == '/'
  {
    var last := LastSlash(path);
    var e := RunEnd(path, if last < 0 then 0 else last, ";");
    path[..e]
  }

  /**
    * `urlparse(url)` reduced to scheme, network location and path: `urlsplit` of the cleaned URL,
    * then, for a scheme that uses parameters, the path without its `;params`.
    */
  function ParseUrl(url: string): UrlParts
  {
    CutParams(SplitUrl(Cleaned(url)))
  }

  /** The parts with the path's `;params` cut, for a scheme that uses parameters. */
  function CutParams(u: UrlParts): UrlParts
  {
    if u.scheme in UsesParams && ';' in u.path then u.(path := SplitParams(u.path)) else u
  }

  /** Blanks in front of a URL are stripped away whatever follows them. */
  lemma {:induction false} LStripC0Blanks(pad: string, url: string)
    requires forall k :: 0 <= k < |pad| ==> IsC0OrSpace(pad[k])
    ensures LStripC0(pad + url) == LStripC0(url)
  {
    if pad != [] {
      assert (pad + url)[0] == pad[0];
      assert (pad + url)[1..] == pad[1..] + url;
      assert LStripC0(pad + url) == LStripC0(pad[1..] + url);
      LStripC0Blanks(pad[1..], url);
    } else {
      assert pad + url == url;
    }
  }

  /** Blanks in front of a URL do not change how it is read. */
  lemma ParseUrlIgnoresLeadingBlanks(pad: string, url: string)
    requires forall k :: 0 <= k < |pad| ==> IsC0OrSpace(pad[k])
    ensures ParseUrl(pad + url) == ParseUrl(url)
  {
    LStripC0Blanks(pad, url);
    assert Cleaned(pad + url) == Cleaned(url);
  }

  // ---------------------------------------------------------------------------------------------
  // split_github_url
  // ---------------------------------------------------------------------------------------------

  /** A repository on a GitHub server: the server's base URL, the owner and the repository name. */
  datatype GithubRepo = GithubRepo(baseUrl: string, owner: string, repo: string)

  /**
    * `split_github_url`: the path with its leading and trailing '/' stripped must hold at least
    * two segments, else the call raises ValueError; the first two are owner and repository, and
    * any further segments are ignored.
    */
  function SplitGithubUrl(url: string): (r: Result<GithubRepo, string>)
    ensures var stripped := Strip(ParseUrl(url).path, '/');
      && (r.Err? <==> '/' !in stripped)
      && (r.Ok? ==>
            && r.value.baseUrl == ParseUrl(url).scheme + "://" + ParseUrl(url).netloc
            && '/' !in r.value.owner && '/' !in r.value.repo
            && IsPrefix(r.value.owner + "/" + r.value.repo, stripped)
            && (|r.value.owner + "/" + r.value.repo| < |stripped| ==>
                  stripped[|r.value.owner + "/" + r.value.repo|] == '/'))
  {
    var u := ParseUrl(url);
    var stripped := Strip(u.path, '/');
    var parts := Split(stripped, '/');
    SplitParts(stripped, '/');
    if |parts| < 2 then Err("Invalid GitHub repository URL")
    else
      SplitPrefix(stripped, '/');
      Ok(GithubRepo(u.scheme + "://" + u.netloc, parts[0], parts[1]))
  }

  /** The first two parts of a split, with the separator between them, start the text. */
  lemma SplitPrefix(s: string, sep: char)
    requires |Split(s, sep)| >= 2
    ensures var parts := Split(s, sep);
      && IsPrefix(parts[0] + [sep] + parts[1], s)
      && (|parts[0] + [sep] + parts[1]| < |s| ==> s[|parts[0] + [sep] + parts[1]|] == sep)
  {
    var parts := Split(s, sep);
    JoinSplit(s, sep);
    var head := parts[0] + [sep] + parts[1];
    if |parts| == 2 {
      assert Join([sep], parts) == head;
    } else {
      assert Join([sep], parts[1..]) == parts[1] + [sep] + Join([sep], parts[2..]);
      assert s == head + ([sep] + Join([sep], parts[2..]));
    }
  }

  /** A scheme as written by a client: a lower-case letter, then lower-case letters, digits, '+', '-' or '.'. */
  predicate IsLowerScheme(scheme: string)
  {
    && scheme != [] && 'a' <= scheme[0] <= 'z'
    && forall k :: 0 <= k < |scheme| ==> IsSchemeChar(scheme[k]) && !('A' <= scheme[k] <= 'Z')
  }

  /** A name that holds none of the characters that end a host, a path segment or its parameters, nor tab, CR or LF. */
  predicate IsSegment(name: string)
  {
    name != [] && forall k :: 0 <= k < |name| ==> name[k] !in "/?#;\t\r\n"
  }

  /** A URL that starts with a scheme has nothing to clean unless it holds tab, CR or LF. */
  lemma CleanedUrl(url: string)
    requires url != [] && IsAsciiLetter(url[0])
    requires forall k :: 0 <= k < |url| ==> url[k] !in UnsafeChars
    ensures Cleaned(url) == url
  {
  }

  /** A URL written as scheme, "://", host and a path that starts with '/' parses into those three. */
  lemma SplitUrlOfParts(scheme: string, host: string, path: string)
    requires IsLowerScheme(scheme)
    requires forall k :: 0 <= k < |host| ==> host[k] !in "/?#"
    requires path != [] && path[0] == '/' && forall k :: 0 <= k < |path| ==> path[k] !in "?#"
    ensures SplitUrl(scheme + "://" + host + path) == UrlParts(scheme, host, path)
  {
    var url := scheme + "://" + host + path;
    var n := |scheme|;
    forall k | 0 <= k < n
      ensures IsSchemeChar(url[k])
    {
      assert url[k] == scheme[k];
    }
    assert url[n] == ':';
    assert SchemeEnd(url, 0) == n;
    assert url[..n] == scheme;
    assert Lower(scheme) == scheme;
    var rest := url[n + 1..];
    assert rest == "//" + host + path;
    var d := 2 + |host|;
    forall k | 2 <= k < d
      ensures rest[k] !in "/?#"
    {
      assert rest[k] == host[k - 2];
    }
    assert rest[d] == '/';
    assert RunEnd(rest, 2, "/?#") == d;
    forall k | d <= k < |rest|
      ensures rest[k] !in "?#"
    {
      assert rest[k] == path[k - d];
    }
    assert RunEnd(rest, d, "?#") == |rest|;
    assert rest[2..d] == host;
    assert rest[d..|rest|] == path;
  }

  /**
    * A URL written as scheme, "://", host and a path that starts with '/', free of tab, CR and LF,
    * parses into the scheme, the host and the path without its `;params`.
    */
  lemma ParseUrlOfParts(scheme: string, host: string, path: string)
    requires IsLowerScheme(scheme)
    requires forall k :: 0 <= k < |host| ==> host[k] !in "/?#\t\r\n"
    requires path != [] && path[0] == '/' && forall k :: 0 <= k < |path| ==> path[k] !in "?#\t\r\n"
    ensures ParseUrl(scheme + "://" + host + path)
      == UrlParts(scheme, host, if scheme in UsesParams && ';' in path then SplitParams(path) else path)
  {
    var url := scheme + "://" + host + path;
    var n := |scheme|;
    forall k | 0 <= k < |url|
      ensures url[k] !in UnsafeChars
    {
      if k < n {
        assert url[k] == scheme[k];
      } else if n + 3 <= k < n + 3 + |host| {
        assert url[k] == host[k - n - 3];
      } else if n + 3 + |host| <= k {
        assert url[k] == path[k - n - 3 - |host|];
      }
    }
    assert url[0] == scheme[0];
    CleanedUrl(url);
    SplitUrlOfParts(scheme, host, path);
  }

  /** `;params` after the last segment of a path are cut off, and a path without ';' is kept. */
  lemma SplitParamsCutsLastSegment(path: string, params: string)
    requires path != [] && path[0] == '/' && ';' !in path
    requires '/' !in params
    ensures SplitParams(path + ";" + params) == path
    ensures SplitParams(path) == path
  {
    var url := path + ";" + params;
    var last := LastSlash(url);
    assert url[0] == '/';
    forall k | |path| <= k < |url|
      ensures url[k] != '/'
    {
      if k > |path| {
        assert url[k] == params[k - |path| - 1];
      }
    }
    assert 0 <= last < |path|;
    assert url[|path|] == ';';
    assert RunEnd(url, last, ";") == |path| by {
      forall k | last <= k < |path|
        ensures url[k] != ';'
      {
        assert url[k] == path[k];
      }
    }
    assert url[..|path|] == path;
  }

  /** Stripping '/' from "/" + owner + "/" + repo + tail leaves owner + "/" + repo + tail. */
  lemma StripRepoPath(owner: string, repo: string, tail: string)
    requires IsSegment(owner) && IsSegment(repo)
    requires tail == [] || (tail[0] == '/' && tail[|tail| - 1] != '/')
    ensures Strip("/" + owner + "/" + repo + tail, '/') == owner + "/" + repo + tail
  {
    var inner := owner + "/" + repo + tail;
    var path := "/" + owner + "/" + repo + tail;
    assert path == "/" + inner && path[1..] == inner;
    assert inner[0] == owner[0];
    assert TrimLeft(path, '/') == inner;
    assert inner[|inner| - 1] != '/' by {
      if tail == [] {
        assert inner[|inner| - 1] == repo[|repo| - 1];
      } else {
        assert inner[|inner| - 1] == tail[|tail| - 1];
      }
    }
  }

  /** A segment holds no '/'. */
  lemma SegmentHasNoSlash(name: string)
    requires IsSegment(name)
    ensures '/' !in name
  {
    assert forall k :: 0 <= k < |name| ==> name[k] != '/';
  }

  /** The path "/" + owner + "/" + repo + tail holds no '?', '#', ';', tab, CR or LF. */
  lemma RepoPathHasNoQuery(owner: string, repo: string, tail: string)
    requires IsSegment(owner) && IsSegment(repo)
    requires forall k :: 0 <= k < |tail| ==> tail[k] !in "?#;\t\r\n"
    ensures var path := "/" + owner + "/" + repo + tail;
      forall k :: 0 <= k < |path| ==> path[k] !in "?#;\t\r\n"
  {
    var path := "/" + owner + "/" + repo + tail;
    forall k | 0 <= k < |path|
      ensures path[k] !in "?#;\t\r\n"
    {
      if 1 <= k < 1 + |owner| {
        assert path[k] == owner[k - 1];
      } else if 2 + |owner| <= k < 2 + |owner| + |repo| {
        assert path[k] == repo[k - 2 - |owner|];
      } else if 2 + |owner| + |repo| <= k {
        assert path[k] == tail[k - 2 - |owner| - |repo|];
      }
    }
  }

  /** Owner and repository are the first two parts of owner + "/" + repo + tail. */
  lemma SplitRepoPath(owner: string, repo: string, tail: string)
    requires IsSegment(owner) && IsSegment(repo) && (tail == [] || tail[0] == '/')
    ensures var parts := Split(owner + "/" + repo + tail, '/');
      |parts| >= 2 && parts[0] == owner && parts[1] == repo
  {
    SegmentHasNoSlash(owner);
    SegmentHasNoSlash(repo);
    SplitAfterSep(owner, repo + tail, '/');
    assert owner + "/" + repo + tail == owner + ['/'] + (repo + tail);
    SplitHead(repo, tail, '/');
  }

  /**
    * Round trip: the URL of a repository, optionally followed by further path segments, splits
    * back into its base URL, owner and repository.
    */
  lemma SplitGithubUrlRoundTrip(scheme: string, host: string, owner: string, repo: string, tail: string)
    requires IsLowerScheme(scheme)
    requires forall k :: 0 <= k < |host| ==> host[k] !in "/?#\t\r\n"
    requires IsSegment(owner) && IsSegment(repo)
    requires tail == [] || (tail[0] == '/' && tail[|tail| - 1] != '/')
    requires forall k :: 0 <= k < |tail| ==> tail[k] !in "?#;\t\r\n"
    ensures SplitGithubUrl(scheme + "://" + host + "/" + owner + "/" + repo + tail)
      == Ok(GithubRepo(scheme + "://" + host, owner, repo))
  {
    var path := "/" + owner + "/" + repo + tail;
    RepoPathHasNoQuery(owner, repo, tail);
    assert scheme + "://" + host + "/" + owner + "/" + repo + tail == scheme + "://" + host + path;
    assert ';' !in path by {
      assert forall k :: 0 <= k < |path| ==> path[k] != ';';
    }
    ParseUrlOfParts(scheme, host, path);
    StripRepoPath(owner, repo, tail);
    SplitRepoPath(owner, repo, tail);
  }

  /**
    * For a scheme that uses parameters, `;params` after the repository name are dropped: the URL
    * still splits into its base URL, owner and repository.
    */
  lemma SplitGithubUrlDropsParams(scheme: string, host: string, owner: string, repo: string, params: string)
    requires IsLowerScheme(scheme) && scheme in UsesParams
    requires forall k :: 0 <= k < |host| ==> host[k] !in "/?#\t\r\n"
    requires IsSegment(owner) && IsSegment(repo)
    requires forall k :: 0 <= k < |params| ==> params[k] !in "/?#\t\r\n"
    ensures SplitGithubUrl(scheme + "://" + host + "/" + owner + "/" + repo + ";" + params)
      == Ok(GithubRepo(scheme + "://" + host, owner, repo))
  {
    var path := "/" + owner + "/" + repo;
    var full := path + ";" + params;
    RepoPathHasNoQuery(owner, repo, []);
    assert path + [] == path;
    assert ';' !in path by {
      assert forall k :: 0 <= k < |path| ==> path[k] != ';';
    }
    assert '/' !in params by {
      assert forall k :: 0 <= k < |params| ==> params[k] != '/';
    }
    forall k | 0 <= k < |full|
      ensures full[k] !in "?#\t\r\n"
    {
      if k < |path| {
        assert full[k] == path[k];
      } else if k > |path| {
        assert full[k] == params[k - |path| - 1];
      }
    }
    assert full[|path|] == ';';
    assert scheme + "://" + host + "/" + owner + "/" + repo + ";" + params == scheme + "://" + host + full;
    ParseUrlOfParts(scheme, host, full);
    SplitParamsCutsLastSegment(path, params);
    StripRepoPath(owner, repo, []);
    SplitRepoPath(owner, repo, []);
  }

  // ---------------------------------------------------------------------------------------------
  // Headers, endpoint and content request
  // ---------------------------------------------------------------------------------------------

  /**
    * `create_auth_headers`: no header for a missing or empty token, else exactly one
    * Authorization header holding "token " and the token.
    */
  function CreateAuthHeaders(token: Option<string>): (headers: map<string, string>)
    ensures token.None? || token.value == "" <==> headers == map[]
    ensures token.Some? && token.value != "" ==>
      && headers.Keys == {"Authorization"}
      && IsPrefix("token ", headers["Authorization"])
      && headers["Authorization"][|"token "|..] == token.value
  {
    if token.None? || token.value == "" then map[]
    else
      var value := "token " + token.value;
      assert value[|"token "|..] == token.value;
      assert "Authorization" in map["Authorization" := value];
      map["Authorization" := value]
  }

  const PublicBase: string := "https://github.com"
  const PublicApi: string := "https://api.github.com"
  const EnterpriseApiSuffix: string := "/api/v3"

  /** `get_github_api_endpoint`: the public API for github.com, else the server's "/api/v3". */
  function GetGithubApiEndpoint(baseUrl: string): (api: string)
    ensures baseUrl != PublicBase ==>
      && |api| == |baseUrl| + |EnterpriseApiSuffix|
      && api[..|baseUrl|] == baseUrl && api[|baseUrl|..] == EnterpriseApiSuffix
  {
    if baseUrl == PublicBase then PublicApi
    else
      var api := baseUrl + EnterpriseApiSuffix;
      assert api[..|baseUrl|] == baseUrl && api[|baseUrl|..] == EnterpriseApiSuffix;
      api
  }

  /** The public API endpoint is chosen exactly for the base URL "https://github.com". */
  lemma PublicApiIffPublicBase(baseUrl: string)
    ensures GetGithubApiEndpoint(baseUrl) == PublicApi <==> baseUrl == PublicBase
  {
    if baseUrl != PublicBase {
      var api := GetGithubApiEndpoint(baseUrl);
      if |api| == |PublicApi| {
        assert api[|api| - 7..] == EnterpriseApiSuffix;
        assert PublicApi[|PublicApi| - 7] == 'h';
        assert api[|api| - 7] == '/';
      }
    }
  }

  /** Different servers get different API endpoints. */
  lemma ApiEndpointInjective(a: string, b: string)
    requires GetGithubApiEndpoint(a) == GetGithubApiEndpoint(b)
    ensures a == b
  {
    PublicApiIffPublicBase(a);
    PublicApiIffPublicBase(b);
    if a != PublicBase && b != PublicBase {
      var api := GetGithubApiEndpoint(a);
      assert |a| == |b|;
      assert a == api[..|a|] == b;
    }
  }

  /** A GET request: its URL and headers. */
  datatype Request = Request(url: string, headers: map<string, string>)

  /** What the server answers: the status code and, for 200, the file's decoded text. */
  datatype Response = Response(status: int, content: string)

  /** The ref a content request asks for: the commit hash when one is given, else the branch. */
  function Ref(branch: string, commitHash: Option<string>): (ref: string)
    ensures commitHash.Some? ==> ref == commitHash.value
    ensures commitHash.None? ==> ref == branch
  {
    if commitHash.Some? then commitHash.value else branch
  }

  /** `{api}/repos/{owner}/{repo}/contents/{filepath}?ref={ref}`. */
  function ContentsUrl(api: string, owner: string, repo: string, filepath: string, ref: string): (url: string)
    ensures |url| >= |"?ref=" + ref| && url[|url| - |"?ref=" + ref|..] == "?ref=" + ref
  {
    var front := api + "/repos/" + owner + "/" + repo + "/contents/" + filepath;
    assert (front + ("?ref=" + ref))[|front|..] == "?ref=" + ref;
    front + ("?ref=" + ref)
  }

  /**
    * The request `get_file_content_from_github` sends, or the ValueError of an invalid
    * repository URL.
    */
  function ContentRequest(repoUrl: string, filepath: string, token: Option<string>, branch: string,
                          commitHash: Option<string>): (r: Result<Request, string>)
    ensures r.Err? <==> SplitGithubUrl(repoUrl).Err?
    ensures r.Ok? ==>
      var g := SplitGithubUrl(repoUrl).value;
      && r.value.headers == CreateAuthHeaders(token)
      && r.value.url == ContentsUrl(GetGithubApiEndpoint(g.baseUrl), g.owner, g.repo, filepath, Ref(branch, commitHash))
  {
    match SplitGithubUrl(repoUrl)
    case Err(e) => Err(e)
    case Ok(g) =>
      Ok(Request(ContentsUrl(GetGithubApiEndpoint(g.baseUrl), g.owner, g.repo, filepath, Ref(branch, commitHash)),
                 CreateAuthHeaders(token)))
  }

  /**
    * `get_file_content_from_github` with the server as the parameter `fetch`: an answer other than
    * 200 gives "" instead of an exception.
    */
  function GetFileContentFromGithub(repoUrl: string, filepath: string, token: Option<string>, branch: string,
                                    commitHash: Option<string>, fetch: Request -> Response): (r: Result<string, string>)
    ensures r.Err? <==> SplitGithubUrl(repoUrl).Err?
    ensures r.Ok? ==>
      var answer := fetch(ContentRequest(repoUrl, filepath, token, branch, commitHash).value);
      r.value == if answer.status == 200 then answer.content else ""
  {
    match ContentRequest(repoUrl, filepath, token, branch, commitHash)
    case Err(e) => Err(e)
    case Ok(request) =>
      var answer := fetch(request);
      Ok(if answer.status != 200 then "" else answer.content)
  }
}
