/**
 * The GitHub dialect handler of the crawler: the Authorization header, the
 * API URLs derived from a web URL, the single-repository resolver, the
 * organization lister with its next-page rule, and the dialect probe.
 *
 * Network calls, JSON decoding, url.Parse and the Link-header parser are
 * not modelled; their outcomes are parameters.  The random choice of a
 * credential is the parameter `pick`.
 */
module Github {
  import opened Outcomes
  import Base64
  import opened UrlPaths

  /** A basic-auth credential ("user:token") as the bytes of a Go string. */
  type Credential = seq<Base64.Byte>

  /** A hosting endpoint under crawl and its basic-auth credentials. */
  datatype Domain = Domain(id: string, host: string, basicAuth: seq<Credential>)

  /** The attribution identity passed through to every emitted repository. */
  datatype Publisher = Publisher(id: string, name: string)

  /** A discovered repository, as sent on the repositories channel. */
  datatype Repository = Repository(
    name: string,
    hostname: string,
    fileRawURL: string,
    gitCloneURL: string,
    gitBranch: string,
    domain: Domain,
    publisher: Publisher,
    headers: map<string, string>,
    metadata: seq<Base64.Byte>)

  /** The fields of GitHub's repository description that the handlers read. */
  datatype GithubRepo = GithubRepo(
    fullName: string,
    private: bool,
    archived: bool,
    contentsURL: string,
    cloneURL: string,
    defaultBranch: string)

  /** One entry of a repository's top-level content listing. */
  datatype GithubFile = GithubFile(name: string, downloadURL: string)

  /** An HTTP reply: status code, status text and the (decoded) body. */
  datatype Response<T> = Response(code: int, statusText: string, body: T)

  /** A GET the handler issues, with the headers it sends. */
  datatype Request =
    | FetchUrl(url: Url, headers: map<string, string>)
    | FetchLink(link: string, headers: map<string, string>)

  /** The errors the single-repository handler returns. */
  datatype Failure =
    | Transport(msg: string)          // the HTTP client's own error
    | BadStatus(statusText: string)   // the repository request did not answer 200
    | Undecodable(msg: string)        // the repository description is not valid JSON
    | PrivateOrArchived
    | MarshalFailed(msg: string)      // the description could not be re-encoded as metadata
    | MissingDescriptor(filename: string)

  const StatusOK := 200
  const ApiPrefix := "api."
  const AuthorizationKey := "Authorization"
  const BasicScheme := "Basic "
  const PathTemplate := "{+path}"
  const RateLimitPath := "rate_limit"
  const OrgsSegment := "orgs"
  const UsersSegment := "users"
  const ReposSegment := "repos"

  /** The text of the error value the Go handler returns. */
  function Message(f: Failure): (m: string)
    ensures f.Transport? || f.Undecodable? || f.MarshalFailed? ==> m == f.msg
    ensures f.BadStatus? ==> m == "request returned an incorrect http.Status: " + f.statusText
    ensures f.PrivateOrArchived? ==> m == "Skipping private or archived repo"
    ensures f.MissingDescriptor? ==> m == "Repository does not contain " + f.filename
  {
    match f
    case Transport(msg) => msg
    case BadStatus(text) => "request returned an incorrect http.Status: " + text
    case Undecodable(msg) => msg
    case PrivateOrArchived => "Skipping private or archived repo"
    case MarshalFailed(msg) => msg
    case MissingDescriptor(filename) => "Repository does not contain " + filename
  }

  /** The errors the handler makes up itself, rather than passing one on. */
  predicate OwnFailure(f: Failure)
  {
    f.BadStatus? || f.PrivateOrArchived? || f.MissingDescriptor?
  }

  /** The handler's own error texts tell apart the failure and the status text or file name it carries. */
  lemma OwnMessagesDistinct(f: Failure, g: Failure)
    requires OwnFailure(f) && OwnFailure(g)
    ensures Message(f) == Message(g) <==> f == g
  {
    if Message(f) == Message(g) {
      MessageHead(f);
      MessageHead(g);
      if f.BadStatus? {
        var prefix := "request returned an incorrect http.Status: ";
        assert f.statusText == Message(f)[|prefix|..];
        assert g.statusText == Message(g)[|prefix|..];
      } else if f.MissingDescriptor? {
        var prefix := "Repository does not contain ";
        assert f.filename == Message(f)[|prefix|..];
        assert g.filename == Message(g)[|prefix|..];
      }
    }
  }

  /** The first letter of each of the handler's own error texts. */
  lemma MessageHead(f: Failure)
    requires OwnFailure(f)
    ensures |Message(f)| > 0
    ensures Message(f)[0] == (if f.BadStatus? then 'r' else if f.MissingDescriptor? then 'R' else 'S')
  {
    match f
    case BadStatus(text) =>
      assert Message(f) == "request returned an incorrect http.Status: " + text;
    case MissingDescriptor(filename) =>
      assert Message(f) == "Repository does not contain " + filename;
    case PrivateOrArchived =>
  }

  // ---------------------------------------------------------------------
  // Credentials

  /**
   * githubBasicAuth: empty when the domain has no credentials, otherwise
   * "Basic " and the padded base64 of the credential at the randomly
   * drawn position `pick`.
   */
  function BasicAuth(domain: Domain, pick: nat): (header: string)
    requires domain.basicAuth == [] || pick < |domain.basicAuth|
    ensures header == "" <==> domain.basicAuth == []
    ensures domain.basicAuth != [] ==>
      |header| >= |BasicScheme| && header[..|BasicScheme|] == BasicScheme &&
      Base64.Decode(header[|BasicScheme|..]) == Some(domain.basicAuth[pick])
  {
    if |domain.basicAuth| > 0 then
      var credential := domain.basicAuth[pick];
      Base64.DecodeEncode(credential);
      assert (BasicScheme + Base64.Encode(credential))[|BasicScheme|..] == Base64.Encode(credential);
      BasicScheme + Base64.Encode(credential)
    else ""
  }

  /** The header map both handlers send with every request: the Authorization header only, empty without credentials. */
  function AuthHeaders(domain: Domain, pick: nat): (h: map<string, string>)
    requires domain.basicAuth == [] || pick < |domain.basicAuth|
    ensures h.Keys == {AuthorizationKey}
    ensures h[AuthorizationKey] == BasicAuth(domain, pick)
    ensures h[AuthorizationKey] == "" <==> domain.basicAuth == []
  {
    map[AuthorizationKey := BasicAuth(domain, pick)]
  }

  /** Whatever credential is drawn, the header carries one of the domain's credentials and no other string. */
  lemma BasicAuthIsConfigured(domain: Domain, pick: nat)
    requires pick < |domain.basicAuth|
    ensures exists c :: c in domain.basicAuth && BasicAuth(domain, pick) == BasicScheme + Base64.Encode(c)
  {
    var header := BasicAuth(domain, pick);
    var c := domain.basicAuth[pick];
    assert header == header[..|BasicScheme|] + header[|BasicScheme|..];
    Base64.EncodeDecode(header[|BasicScheme|..], c);
  }

  // ---------------------------------------------------------------------
  // API URLs

  /** `web` moved to the API host, with path strings.Trim(path.Join(elems...), "/"). */
  function ApiUrl(web: Url, elems: seq<string>): (out: Url)
    requires forall e :: e in elems ==> DotFree(e)
    ensures out == web.(host := ApiPrefix + web.host, path := out.path)
    ensures Components(out.path) == ComponentsOf(elems) && Canonical(out.path) && NoEdgeSlash(out.path)
  {
    TrimmedJoin(elems);
    CanonicalEdges(Trim(Join(elems)));
    web.(path := Trim(Join(elems)), host := ApiPrefix + web.host)
  }

  /**
   * GenerateGithubAPIURL: the organization URL first, then the user URL,
   * both on the API host; nothing else of the URL changes.
   */
  function GenerateApiUrls(web: Url): (out: seq<Url>)
    requires DotFree(web.path)
    ensures |out| == 2
    ensures IsCandidate(web, out[0], OrgsSegment)
    ensures IsCandidate(web, out[1], UsersSegment)
  {
    SegmentsAreWords();
    [Candidate(web, OrgsSegment), Candidate(web, UsersSegment)]
  }

  /** The API URL for one account kind: path.Join(kind, web.path, "repos") on the API host. */
  function Candidate(web: Url, kind: string): (out: Url)
    requires DotFree(web.path) && IsWord(kind)
    ensures IsCandidate(web, out, kind)
  {
    SegmentsAreWords();
    WrappedComponents(web, kind);
    ApiUrl(web, [kind, web.path, ReposSegment])
  }

  /**
   * `out` is `web` on the API host with path "<kind>/<components of web's
   * path>/repos", single slashes, none at either end; all else unchanged.
   */
  predicate IsCandidate(web: Url, out: Url, kind: string)
  {
    && out == web.(host := ApiPrefix + web.host, path := out.path)
    && Components(out.path) == [kind] + Components(web.path) + [ReposSegment]
    && Canonical(out.path)
    && NoEdgeSlash(out.path)
  }

  lemma SegmentsAreWords()
    ensures IsWord(OrgsSegment) && IsWord(UsersSegment) && IsWord(ReposSegment)
  {
  }

  lemma WrappedComponents(web: Url, kind: string)
    requires DotFree(web.path)
    requires IsWord(kind) && IsWord(ReposSegment)
    ensures DotFree(kind) && DotFree(ReposSegment)
    ensures IsCandidate(web, ApiUrl(web, [kind, web.path, ReposSegment]), kind)
  {
    Word(kind);
    Word(ReposSegment);
    ComponentsOfTriple(kind, web.path, ReposSegment);
  }

  /** For a web URL naming one account, "/<name>", the candidates are "orgs/<name>/repos" and "users/<name>/repos". */
  lemma GenerateApiUrlsForAccount(web: Url, name: string)
    requires web.path == "/" + name
    requires IsWord(name)
    ensures DotFree(web.path)
    ensures GenerateApiUrls(web)[0].path == "orgs/" + name + "/repos"
    ensures GenerateApiUrls(web)[1].path == "users/" + name + "/repos"
  {
    TrimmedJoinWords("orgs", name, "repos");
    TrimmedJoinWords("users", name, "repos");
    SlashedWords(name);
  }

  /** The slash-joined segments, written as the documented paths; kept apart so the proof above stays small. */
  lemma SlashedWords(name: string)
    ensures "orgs" + "/" + name + "/" + "repos" == "orgs/" + name + "/repos"
    ensures "users" + "/" + name + "/" + "repos" == "users/" + name + "/repos"
  {
  }

  /** The documented example: https://github.com/italia becomes .../orgs/italia/repos and .../users/italia/repos. */
  lemma GenerateApiUrlsExample()
    ensures var web := Url("https", "", "", "github.com", "/italia", "", false, "", "", "");
      DotFree(web.path) &&
      var out := GenerateApiUrls(web);
      out[0] == web.(host := "api.github.com", path := "orgs/italia/repos") &&
      out[1] == web.(host := "api.github.com", path := "users/italia/repos")
  {
    var web := Url("https", "", "", "github.com", "/italia", "", false, "", "", "");
    GenerateApiUrlsForAccount(web, "italia");
    ExampleText();
  }

  /** The example's strings, concatenated; kept apart so the proof above stays small. */
  lemma ExampleText()
    ensures "orgs/" + "italia" + "/repos" == "orgs/italia/repos"
    ensures "users/" + "italia" + "/repos" == "users/italia/repos"
    ensures "api." + "github.com" == "api.github.com"
  {
  }

  /** The single-repository handler's rewrite: path "repos/<path>" on the API host. */
  function SingleRepoApiUrl(u: Url): (api: Url)
    requires DotFree(u.path)
    ensures api == u.(host := ApiPrefix + u.host, path := api.path)
    ensures Components(api.path) == [ReposSegment] + Components(u.path)
    ensures Canonical(api.path) && NoEdgeSlash(api.path)
  {
    SegmentsAreWords();
    Word(ReposSegment);
    ComponentsOfPair(ReposSegment, u.path);
    ApiUrl(u, [ReposSegment, u.path])
  }

  /** The probe URL of IsGithub: path "rate_limit" on the API host. */
  function RateLimitUrl(u: Url): (r: Url)
    ensures r.path == RateLimitPath && r.host == ApiPrefix + u.host
    ensures r.(path := u.path, host := u.host) == u
    ensures u.host == "" || u.host[0] != '[' ==> Hostname(r.host) == ApiPrefix + Hostname(u.host)
  {
    HostnameApiPrefixWhenPlain(u.host);
    u.(path := RateLimitPath, host := ApiPrefix + u.host)
  }

  // ---------------------------------------------------------------------
  // Pagination

  /**
   * The next page of the organization lister: none when the Link header's
   * next link is empty or is the URL just fetched, otherwise that link.
   */
  function NextPage(nextLink: string, current: string): (next: Option<string>)
    ensures next == None <==> nextLink == "" || nextLink == current
    ensures next.Some? ==> next.value == nextLink && next.value != current && next.value != ""
  {
    if nextLink == "" || nextLink == current then None else Some(nextLink)
  }

  // ---------------------------------------------------------------------
  // Dialect probe

  /** The probe's answer and the request it issued, if any. */
  datatype Probe = Probe(isGithub: bool, request: Option<Url>)

  /**
   * IsGithub: `parsed` is the outcome of url.Parse(link) and `reply` that
   * of the GET on the rate-limit URL; neither is consulted for an empty link.
   */
  function IsGithub(link: string, parsed: Result<Url>, reply: Result<Response<()>>): (p: Probe)
    ensures link == "" ==> p == Probe(false, None)
    ensures p.request.Some? <==> link != "" && parsed.Ok?
    ensures p.request.Some? ==>
      p.request.value == parsed.value.(path := RateLimitPath, host := ApiPrefix + parsed.value.host)
    ensures p.isGithub <==> link != "" && parsed.Ok? && reply.Ok? && reply.value.code == StatusOK
  {
    if |link| == 0 then Probe(false, None)
    else if parsed.Err? then Probe(false, None)
    else
      var probe := RateLimitUrl(parsed.value);
      if reply.Err? then Probe(false, Some(probe))
      else if reply.value.code != StatusOK then Probe(false, Some(probe))
      else Probe(true, Some(probe))
  }

  // ---------------------------------------------------------------------
  // Single repository

  /** A listing entry naming the descriptor file with somewhere to download it from. */
  predicate IsDescriptor(f: GithubFile, filename: string)
  {
    f.name == filename && f.downloadURL != ""
  }

  /** The descriptor entries of a listing, in listing order. */
  function Descriptors(files: seq<GithubFile>, filename: string): (ds: seq<GithubFile>)
    ensures forall f :: f in ds <==> f in files && IsDescriptor(f, filename)
    ensures forall k :: 0 <= k < |ds| ==> IsDescriptor(ds[k], filename)
    ensures |ds| <= |files|
    decreases |files|
  {
    if files == [] then []
    else
      var init, last := files[..|files| - 1], files[|files| - 1];
      assert files == init + [last];
      if IsDescriptor(last, filename) then Descriptors(init, filename) + [last]
      else Descriptors(init, filename)
  }

  /** The repository description, when the reply was 200 and its body decoded. */
  function Described(reply: Result<Response<Result<GithubRepo>>>): Option<GithubRepo>
  {
    if reply.Ok? && reply.value.code == StatusOK && reply.value.body.Ok? then Some(reply.value.body.value)
    else None
  }

  predicate IsPublic(v: GithubRepo)
  {
    !v.private && !v.archived
  }

  /** The listing request is made: the repository is public and its metadata encoded. */
  predicate ListingRequested(reply: Result<Response<Result<GithubRepo>>>, metadata: Result<seq<Base64.Byte>>)
  {
    Described(reply).Some? && IsPublic(Described(reply).value) && metadata.Ok?
  }

  /** The listing reply was 200; an undecodable body counts as an empty listing. */
  predicate ListingRead(listing: Result<Response<Result<seq<GithubFile>>>>)
  {
    listing.Ok? && listing.value.code == StatusOK
  }

  function ListedFiles(listing: Result<Response<Result<seq<GithubFile>>>>): seq<GithubFile>
    requires ListingRead(listing)
  {
    if listing.value.body.Ok? then listing.value.body.value else []
  }

  /**
   * RegisterSingleGithubAPI's handler.  `repoReply` answers the GET on the
   * rewritten API URL, `metadata` is json.Marshal of the description,
   * `listing` answers the GET on its contents URL.
   */
  method ResolveSingle(
    domain: Domain, u: Url, publisher: Publisher, filename: string, pick: nat,
    repoReply: Result<Response<Result<GithubRepo>>>,
    metadata: Result<seq<Base64.Byte>>,
    listing: Result<Response<Result<seq<GithubFile>>>>)
    returns (emitted: seq<Repository>, err: Option<Failure>, requests: seq<Request>)
    requires domain.basicAuth == [] || pick < |domain.basicAuth|
    requires DotFree(u.path)
    // the first request goes to the rewritten API URL, with the credential header
    ensures 1 <= |requests| <= 2
    ensures requests[0] == FetchUrl(SingleRepoApiUrl(u), AuthHeaders(domain, pick))
    // each early exit returns its own error and emits nothing
    ensures repoReply.Err? ==> err == Some(Transport(repoReply.msg))
    ensures repoReply.Ok? && repoReply.value.code != StatusOK ==>
      err == Some(BadStatus(repoReply.value.statusText))
    ensures repoReply.Ok? && repoReply.value.code == StatusOK && repoReply.value.body.Err? ==>
      err == Some(Undecodable(repoReply.value.body.msg))
    ensures Described(repoReply).Some? && !IsPublic(Described(repoReply).value) ==>
      err == Some(PrivateOrArchived)
    ensures Described(repoReply).Some? && IsPublic(Described(repoReply).value) && metadata.Err? ==>
      err == Some(MarshalFailed(metadata.msg))
    ensures !(ListingRequested(repoReply, metadata) && ListingRead(listing)) ==> emitted == []
    // the contents listing is requested only for a public repository
    ensures |requests| == 2 <==> ListingRequested(repoReply, metadata)
    ensures |requests| == 2 ==>
      requests[1] == FetchLink(RemoveAll(Described(repoReply).value.contentsURL, PathTemplate), AuthHeaders(domain, pick))
    ensures ListingRequested(repoReply, metadata) && listing.Err? ==> err == Some(Transport(listing.msg))
    // a listing reply other than 200 returns the nil error held at that point
    ensures ListingRequested(repoReply, metadata) && listing.Ok? && !ListingRead(listing) ==> err == None
    // one repository per descriptor entry, in listing order; nil iff at least one
    ensures ListingRequested(repoReply, metadata) && ListingRead(listing) ==>
      var v, ds := Described(repoReply).value, Descriptors(ListedFiles(listing), filename);
      |emitted| == |ds| &&
      (forall k :: 0 <= k < |ds| ==>
        emitted[k] == ForDescriptor(SingleFound(domain, u, publisher, pick, v, metadata.value), ds[k])) &&
      (err == None <==> emitted != []) &&
      (err != None ==> err == Some(MissingDescriptor(filename)))
    // the emitted host name is the API host, the domain keeps the original one
    ensures u.host == "" || u.host[0] != '[' ==>
      forall e :: e in emitted ==> e.hostname == ApiPrefix + e.domain.host
  {
    var headers := AuthHeaders(domain, pick);
    var api := SingleRepoApiUrl(u);
    requests := [FetchUrl(api, headers)];
    var failure := CheckDescription(repoReply, metadata);
    if failure.Some? {
      return [], failure, requests;
    }
    var v := repoReply.value.body.value;
    assert Described(repoReply) == Some(v);
    var request;
    emitted, err, request := ListPublic(domain, u, publisher, filename, pick, v, metadata.value, listing);
    requests := [requests[0], request];
  }

  /**
   * The handler's first half, once the repository request is answered:
   * each way it stops early, with its own error, or None when the contents
   * listing is to be requested.
   */
  method CheckDescription(repoReply: Result<Response<Result<GithubRepo>>>, metadata: Result<seq<Base64.Byte>>)
    returns (failure: Option<Failure>)
    ensures failure.None? <==> ListingRequested(repoReply, metadata)
    ensures repoReply.Err? ==> failure == Some(Transport(repoReply.msg))
    ensures repoReply.Ok? && repoReply.value.code != StatusOK ==>
      failure == Some(BadStatus(repoReply.value.statusText))
    ensures repoReply.Ok? && repoReply.value.code == StatusOK && repoReply.value.body.Err? ==>
      failure == Some(Undecodable(repoReply.value.body.msg))
    ensures Described(repoReply).Some? && !IsPublic(Described(repoReply).value) ==>
      failure == Some(PrivateOrArchived)
    ensures Described(repoReply).Some? && IsPublic(Described(repoReply).value) && metadata.Err? ==>
      failure == Some(MarshalFailed(metadata.msg))
  {
    if repoReply.Err? {
      return Some(Transport(repoReply.msg));
    }
    var resp := repoReply.value;
    if resp.code != StatusOK {
      return Some(BadStatus(resp.statusText));
    }
    if resp.body.Err? {
      return Some(Undecodable(resp.body.msg));
    }
    var v := resp.body.value;
    if v.private || v.archived {
      return Some(PrivateOrArchived);
    }
    if metadata.Err? {
      return Some(MarshalFailed(metadata.msg));
    }
    return None;
  }

  /**
   * The handler's second half, for a public repository `v` whose description
   * re-encoded to `metadata`: the contents request, without its
   * "{+path}" template, and the search of the listing it answers.
   */
  method ListPublic(
    domain: Domain, u: Url, publisher: Publisher, filename: string, pick: nat,
    v: GithubRepo, metadata: seq<Base64.Byte>,
    listing: Result<Response<Result<seq<GithubFile>>>>)
    returns (emitted: seq<Repository>, err: Option<Failure>, request: Request)
    requires domain.basicAuth == [] || pick < |domain.basicAuth|
    ensures request == FetchLink(RemoveAll(v.contentsURL, PathTemplate), AuthHeaders(domain, pick))
    ensures listing.Err? ==> emitted == [] && err == Some(Transport(listing.msg))
    ensures listing.Ok? && !ListingRead(listing) ==> emitted == [] && err == None
    ensures ListingRead(listing) ==>
      var ds := Descriptors(ListedFiles(listing), filename);
      |emitted| == |ds| &&
      (forall k :: 0 <= k < |ds| ==>
        emitted[k] == ForDescriptor(SingleFound(domain, u, publisher, pick, v, metadata), ds[k])) &&
      (err == None <==> emitted != []) &&
      (err != None ==> err == Some(MissingDescriptor(filename)))
    ensures u.host == "" || u.host[0] != '[' ==>
      forall e :: e in emitted ==> e.hostname == ApiPrefix + e.domain.host
  {
    request := FetchLink(RemoveAll(v.contentsURL, PathTemplate), AuthHeaders(domain, pick));
    var found := SingleFound(domain, u, publisher, pick, v, metadata);
    emitted, err := SearchContents(found, filename, listing);
  }

  /**
   * The repository the single-repository handler sends, before a raw URL is
   * filled in: the host name of the rewritten API URL, the domain with the
   * web host name, the credential header and the encoded description.
   */
  function SingleFound(
    domain: Domain, u: Url, publisher: Publisher, pick: nat, v: GithubRepo, metadata: seq<Base64.Byte>): (r: Repository)
    requires domain.basicAuth == [] || pick < |domain.basicAuth|
    ensures r.name == v.fullName && r.gitCloneURL == v.cloneURL && r.gitBranch == v.defaultBranch
    ensures r.fileRawURL == "" && r.metadata == metadata && r.publisher == publisher
    ensures r.headers == AuthHeaders(domain, pick)
    ensures r.domain == domain.(host := Hostname(u.host))
    ensures u.host == "" || u.host[0] != '[' ==> r.hostname == ApiPrefix + r.domain.host
  {
    HostnameApiPrefixWhenPlain(u.host);
    Repository(v.fullName, Hostname(ApiPrefix + u.host), "", v.cloneURL, v.defaultBranch,
               domain.(host := Hostname(u.host)), publisher, AuthHeaders(domain, pick), metadata)
  }

  /**
   * The contents stage of the single-repository handler, once the listing
   * has been requested: `found` is the repository to send, still without
   * its raw URL.
   */
  method SearchContents(found: Repository, filename: string, listing: Result<Response<Result<seq<GithubFile>>>>)
    returns (emitted: seq<Repository>, err: Option<Failure>)
    ensures listing.Err? ==> emitted == [] && err == Some(Transport(listing.msg))
    ensures listing.Ok? && !ListingRead(listing) ==> emitted == [] && err == None
    ensures ListingRead(listing) ==>
      var ds := Descriptors(ListedFiles(listing), filename);
      |emitted| == |ds| &&
      (forall k :: 0 <= k < |ds| ==> emitted[k] == ForDescriptor(found, ds[k])) &&
      (err == None <==> emitted != []) &&
      (err != None ==> err == Some(MissingDescriptor(filename)))
    ensures forall e :: e in emitted ==> e.fileRawURL != "" && e.(fileRawURL := found.fileRawURL) == found
  {
    if listing.Err? {
      return [], Some(Transport(listing.msg));
    }
    if listing.value.code != StatusOK {
      return [], None;
    }
    var files := if listing.value.body.Ok? then listing.value.body.value else [];
    var foundIt;
    emitted, foundIt := EmitDescriptors(found, files, filename);
    CandidatesFromDescriptors(found, Descriptors(files, filename), filename, emitted);
    if !foundIt {
      err := Some(MissingDescriptor(filename));
    } else {
      err := None;
    }
  }

  /** The repository sent for descriptor entry `f`: `found` carrying that entry's download URL. */
  function ForDescriptor(found: Repository, f: GithubFile): Repository
  {
    found.(fileRawURL := f.downloadURL)
  }

  /**
   * The search loop of the single-repository handler: one copy of `found`
   * per descriptor entry, carrying that entry's download URL; `foundIt`
   * records whether there was any.
   */
  method EmitDescriptors(found: Repository, files: seq<GithubFile>, filename: string)
    returns (emitted: seq<Repository>, foundIt: bool)
    ensures emitted == ForEachDescriptor(found, Descriptors(files, filename))
    ensures foundIt <==> emitted != []
  {
    emitted := [];
    foundIt := false;
    var i := 0;
    while i < |files|
      invariant 0 <= i <= |files|
      invariant emitted == ForEachDescriptor(found, Descriptors(files[..i], filename))
      invariant foundIt <==> emitted != []
    {
      var f := files[i];
      DescriptorsStep(files, i, filename);
      if IsDescriptor(f, filename) {
        ForEachDescriptorSnoc(found, Descriptors(files[..i], filename), f);
        emitted := emitted + [ForDescriptor(found, f)];
        foundIt := true;
      }
      i := i + 1;
    }
    assert files[..i] == files;
  }

  /** One repository per descriptor entry, in order. */
  function ForEachDescriptor(found: Repository, ds: seq<GithubFile>): (rs: seq<Repository>)
    ensures |rs| == |ds|
    ensures forall k :: 0 <= k < |ds| ==> rs[k] == ForDescriptor(found, ds[k])
  {
    seq(|ds|, k requires 0 <= k < |ds| => ForDescriptor(found, ds[k]))
  }

  lemma ForEachDescriptorSnoc(found: Repository, ds: seq<GithubFile>, f: GithubFile)
    ensures ForEachDescriptor(found, ds + [f]) == ForEachDescriptor(found, ds) + [ForDescriptor(found, f)]
  {
  }

  /** Every repository built from descriptor entries differs from `found` only in a non-empty raw URL. */
  lemma CandidatesFromDescriptors(found: Repository, ds: seq<GithubFile>, filename: string, emitted: seq<Repository>)
    requires forall k :: 0 <= k < |ds| ==> IsDescriptor(ds[k], filename)
    requires |emitted| == |ds|
    requires forall k :: 0 <= k < |emitted| ==> emitted[k] == ForDescriptor(found, ds[k])
    ensures forall e :: e in emitted ==> e.fileRawURL != "" && e.(fileRawURL := found.fileRawURL) == found
  {
    forall e | e in emitted
      ensures e.fileRawURL != "" && e.(fileRawURL := found.fileRawURL) == found
    {
      var k :| 0 <= k < |emitted| && emitted[k] == e;
      assert IsDescriptor(ds[k], filename);
    }
  }

  /**
   * A listing with exactly one descriptor entry (file names within one
   * directory are distinct) yields exactly that entry.
   */
  lemma {:induction false} UniqueDescriptor(files: seq<GithubFile>, filename: string, k: nat)
    requires k < |files| && IsDescriptor(files[k], filename)
    requires forall j :: 0 <= j < |files| && j != k ==> !IsDescriptor(files[j], filename)
    ensures Descriptors(files, filename) == [files[k]]
    decreases |files|
  {
    var init := files[..|files| - 1];
    assert files == init + [files[|files| - 1]];
    if k < |files| - 1 {
      UniqueDescriptor(init, filename, k);
    } else {
      NoDescriptors(init, filename);
    }
  }

  lemma NoDescriptors(files: seq<GithubFile>, filename: string)
    requires forall j :: 0 <= j < |files| ==> !IsDescriptor(files[j], filename)
    ensures Descriptors(files, filename) == []
  {
  }

  /** Extending the scanned prefix by one file extends its descriptors by that file, when it is one. */
  lemma DescriptorsStep(files: seq<GithubFile>, i: nat, filename: string)
    requires i < |files|
    ensures Descriptors(files[..i + 1], filename) ==
      if IsDescriptor(files[i], filename) then Descriptors(files[..i], filename) + [files[i]]
      else Descriptors(files[..i], filename)
  {
    assert files[..i + 1][..i] == files[..i];
  }

  lemma HostnameApiPrefixWhenPlain(host: string)
    ensures host == "" || host[0] != '[' ==> Hostname(ApiPrefix + host) == ApiPrefix + Hostname(host)
  {
    if host == "" || host[0] != '[' {
      HostnameApiPrefix(host);
    }
  }

  // ---------------------------------------------------------------------
  // Organization

  /** A repository of the organization listing and the download URL of its descriptor, if the lookup found one. */
  datatype Listed = Listed(repo: GithubRepo, descriptor: Option<string>)

  predicate Eligible(l: Listed)
  {
    IsPublic(l.repo) && l.descriptor.Some?
  }

  /** The entries the organization lister emits, in listing order. */
  function Kept(listing: seq<Listed>): (r: seq<Listed>)
    ensures forall l :: l in r <==> l in listing && Eligible(l)
    ensures forall k :: 0 <= k < |r| ==> Eligible(r[k])
    ensures |r| <= |listing|
    decreases |listing|
  {
    if listing == [] then []
    else
      var init, last := listing[..|listing| - 1], listing[|listing| - 1];
      assert listing == init + [last];
      if Eligible(last) then Kept(init) + [last] else Kept(init)
  }

  /** The repository the organization lister sends for one eligible entry; the handler names no metadata value, so none is sent. */
  function OrgCandidate(l: Listed, dom: Domain, publisher: Publisher, headers: map<string, string>): (r: Repository)
    requires l.descriptor.Some?
    ensures r.name == l.repo.fullName && r.gitCloneURL == l.repo.cloneURL && r.gitBranch == l.repo.defaultBranch
    ensures r.fileRawURL == l.descriptor.value && r.metadata == []
    ensures r.domain == dom && r.hostname == r.domain.host
    ensures r.publisher == publisher && r.headers == headers
  {
    Repository(l.repo.fullName, dom.host, l.descriptor.value, l.repo.cloneURL, l.repo.defaultBranch,
               dom, publisher, headers, [])
  }

  /**
   * RegisterGithubAPI's handler: skip private and archived repositories,
   * emit those whose descriptor lookup returned a file, then decide the next
   * page from `nextLink` (the Link header's "next" relation) and `current`
   * (the fetched URL as a string).
   */
  method ListOrganization(
    domain: Domain, u: Url, current: string, publisher: Publisher, pick: nat,
    listing: seq<Listed>, nextLink: string)
    returns (emitted: seq<Repository>, next: Option<string>)
    requires domain.basicAuth == [] || pick < |domain.basicAuth|
    ensures |emitted| == |Kept(listing)|
    ensures forall k :: 0 <= k < |emitted| ==>
      emitted[k] == OrgCandidate(Kept(listing)[k], domain.(host := Hostname(u.host)), publisher, AuthHeaders(domain, pick))
    ensures forall e :: e in emitted ==>
      exists l :: l in listing && IsPublic(l.repo) && l.descriptor == Some(e.fileRawURL) && e.name == l.repo.fullName
    ensures next == NextPage(nextLink, current)
  {
    var headers := AuthHeaders(domain, pick);
    var dom := domain.(host := Hostname(u.host));
    emitted := EmitEligible(listing, dom, publisher, headers);
    CandidatesFromListing(listing, emitted, dom, publisher, headers);
    if nextLink == "" || nextLink == current {
      next := None;
    } else {
      next := Some(nextLink);
    }
  }

  /** The loop over one page of the listing: one candidate per kept entry, in order. */
  method EmitEligible(listing: seq<Listed>, dom: Domain, publisher: Publisher, headers: map<string, string>)
    returns (emitted: seq<Repository>)
    ensures emitted == OrgCandidates(Kept(listing), dom, publisher, headers)
  {
    emitted := [];
    var i := 0;
    while i < |listing|
      invariant 0 <= i <= |listing|
      invariant emitted == OrgCandidates(Kept(listing[..i]), dom, publisher, headers)
    {
      var r := listing[i];
      KeptStep(listing, i);
      if r.repo.private || r.repo.archived {
        i := i + 1;
        continue;
      }
      if r.descriptor.Some? {
        OrgCandidatesSnoc(Kept(listing[..i]), r, dom, publisher, headers);
        emitted := emitted + [OrgCandidate(r, dom, publisher, headers)];
      }
      i := i + 1;
    }
    assert listing[..i] == listing;
  }

  /** One candidate per entry, in order. */
  function OrgCandidates(kept: seq<Listed>, dom: Domain, publisher: Publisher, headers: map<string, string>)
    : (rs: seq<Repository>)
    requires forall k :: 0 <= k < |kept| ==> kept[k].descriptor.Some?
    ensures |rs| == |kept|
    ensures forall k :: 0 <= k < |kept| ==> rs[k] == OrgCandidate(kept[k], dom, publisher, headers)
  {
    seq(|kept|, k requires 0 <= k < |kept| => OrgCandidate(kept[k], dom, publisher, headers))
  }

  lemma OrgCandidatesSnoc(kept: seq<Listed>, l: Listed, dom: Domain, publisher: Publisher, headers: map<string, string>)
    requires forall k :: 0 <= k < |kept| ==> kept[k].descriptor.Some?
    requires l.descriptor.Some?
    ensures OrgCandidates(kept + [l], dom, publisher, headers) ==
      OrgCandidates(kept, dom, publisher, headers) + [OrgCandidate(l, dom, publisher, headers)]
  {
  }

  /** Every candidate built from the kept entries names a public repository of the listing and its descriptor. */
  lemma CandidatesFromListing(
    listing: seq<Listed>, emitted: seq<Repository>, dom: Domain, publisher: Publisher, headers: map<string, string>)
    requires |emitted| == |Kept(listing)|
    requires forall k :: 0 <= k < |emitted| ==>
      emitted[k] == OrgCandidate(Kept(listing)[k], dom, publisher, headers)
    ensures forall e :: e in emitted ==>
      exists l :: l in listing && IsPublic(l.repo) && l.descriptor == Some(e.fileRawURL) && e.name == l.repo.fullName
  {
    forall e | e in emitted
      ensures exists l :: l in listing && IsPublic(l.repo) && l.descriptor == Some(e.fileRawURL) && e.name == l.repo.fullName
    {
      var k :| 0 <= k < |emitted| && emitted[k] == e;
      assert Kept(listing)[k] in Kept(listing);
    }
  }

  /** Extending the scanned prefix by one entry extends what is kept by that entry, when it is eligible. */
  lemma KeptStep(listing: seq<Listed>, i: nat)
    requires i < |listing|
    ensures Kept(listing[..i + 1]) ==
      if Eligible(listing[i]) then Kept(listing[..i]) + [listing[i]] else Kept(listing[..i])
  {
    assert listing[..i + 1][..i] == listing[..i];
  }

  lemma {:induction false} KeptAppend(a: seq<Listed>, b: seq<Listed>)
    ensures Kept(a + b) == Kept(a) + Kept(b)
    decreases |b|
  {
    if b == [] {
      assert a + b == a;
    } else {
      var init, last := b[..|b| - 1], b[|b| - 1];
      assert (a + b)[..|a + b| - 1] == a + init;
      KeptAppend(a, init);
    }
  }

  /** A private or archived repository is skipped and the listing carries on with the rest. */
  lemma SkipHidden(before: seq<Listed>, hidden: Listed, after: seq<Listed>)
    requires !IsPublic(hidden.repo)
    ensures Kept(before + [hidden] + after) == Kept(before) + Kept(after)
  {
    KeptAppend(before + [hidden], after);
    KeptAppend(before, [hidden]);
    assert Kept([hidden]) == [] by {
      assert [hidden][..0] == [];
    }
  }

  /**
   * The descriptor lookup of a private or archived repository is never
   * consulted: whatever it would have found, the same records are sent.
   */
  lemma HiddenLookupIgnored(listing: seq<Listed>, k: nat, d: Option<string>)
    requires k < |listing| && !IsPublic(listing[k].repo)
    ensures Kept(listing[k := listing[k].(descriptor := d)]) == Kept(listing)
  {
    var before, after := listing[..k], listing[k + 1..];
    assert listing == before + [listing[k]] + after;
    assert listing[k := listing[k].(descriptor := d)] == before + [listing[k].(descriptor := d)] + after;
    SkipHidden(before, listing[k], after);
    SkipHidden(before, listing[k].(descriptor := d), after);
  }
}
