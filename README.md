# GitHub dialect of the publiccode crawler, modelled in Dafny

This project models the GitHub handlers of the crawler (`crawler/github.go`).
The crawler walks code-hosting sites and looks for repositories that
publish a descriptor file. For GitHub the handlers do five things:

- they build the `Authorization` header from a domain's basic-auth
  credentials;
- they turn a web URL (`https://github.com/italia`) into the two API URLs
  to try, the organization one first and the user one second;
- they resolve one explicit repository: rewrite its URL for the API, fetch
  its description, reject private and archived repositories, list its
  contents and send one repository record per descriptor entry;
- they list an organization: skip private and archived repositories, send
  the ones with a descriptor, and decide whether there is a next page;
- they probe whether a site speaks the GitHub API (`IsGithub`).

The model has four modules:

- `Outcomes`: `Option` and `Result`.
- `Base64`: padded base64 with the standard alphabet (section 4 of RFC 4648),
  as used by Go's `base64.StdEncoding`. Its partner is a strict decoder
  (section 3.5 of RFC 4648: non-zero pad bits are rejected). The two are
  proved exact inverses.
- `UrlPaths`: the parts of Go's `net/url`, `path` and `strings` that the
  handlers call. These are a URL record, `URL.Hostname`, `strings.Trim` on
  `/`, `path.Join` and `path.Clean` for paths without `.`/`..` elements, and
  `strings.Replace` with an empty replacement. The handlers call no
  `strings.Split` or `strings.Join`. `Split`, `JoinSlash`, `Components` and
  `ComponentsOf` are specification helpers: they state the path elements
  that the contracts of `path.Join`, `path.Clean` and `strings.Trim` are
  stated in.
- `Github`: the handlers themselves. The pure parts are functions. The two
  handlers with loops are methods whose loops carry their invariants; each
  method is proved against a specification function (`Descriptors`, `Kept`).

HTTP replies, JSON decoding, `url.Parse`, the Link-header parser and the
random choice of a credential are not computed in the model. Their outcomes
are parameters of the handlers. The random index is `pick`, which must lie
in range.

## Model

| member | source | states |
|---|---|---|
| Github.BasicAuth | crawler/github.go:20-26 | the header is empty exactly when the domain has no credentials; otherwise it starts with "Basic " and the rest decodes (strictly) to the credential at the drawn position |
| Github.AuthHeaders | crawler/github.go:85-87 | the header map holds the `Authorization` key and no other; its value is the basic-auth header of Github.BasicAuth for the drawn credential, and so is empty exactly when the domain has no credentials |
| Github.BasicAuthIsConfigured | crawler/github.go:21-23 | whatever position is drawn, the header is "Basic " followed by the encoding of one of the domain's own credentials |
| Base64.Encode | crawler/github.go:23 | `base64.StdEncoding.EncodeToString`: four characters for every started group of three bytes |
| Base64.EncodeAlphabet | crawler/github.go:23 | every character of an encoding is from the standard alphabet or the pad `=`, and pads occur only in the last two places |
| Base64.DecodeEncode | crawler/github.go:23 | decoding the encoding of any byte string gives that byte string back |
| Base64.EncodeDecode | crawler/github.go:23 | whatever decodes successfully is the encoding of what it decodes to (encodings are unique) |
| Base64.DecodeIff | crawler/github.go:23 | a string decodes to `b` if and only if it is the encoding of `b` |
| Base64.StandardVectors | crawler/github.go:23 | the test vectors of section 10 of RFC 4648: "", "f", "fo", "foo", "foob", "fooba" and "foobar" encode to "", "Zg==", "Zm8=", "Zm9v", "Zm9vYg==", "Zm9vYmE=" and "Zm9vYmFy" |
| Github.GenerateApiUrls | crawler/github.go:192-208 | exactly two candidates, organization first, user second; each is the input URL with only host and path changed, the host is "api." + host, and the path's elements are `orgs`/`users`, then the input path's elements, then `repos`, joined by single slashes with no slash at either end |
| Github.Candidate | crawler/github.go:195-197 | one candidate URL satisfies that description for its account kind |
| Github.GenerateApiUrlsForAccount | crawler/github.go:189-204 | for a web path "/name" the candidate paths are exactly "orgs/name/repos" and "users/name/repos" |
| Github.GenerateApiUrlsExample | crawler/github.go:189-191 | the documented example: https://github.com/italia gives api.github.com with orgs/italia/repos, then users/italia/repos |
| Github.SingleRepoApiUrl | crawler/github.go:92-94 | the rewritten URL differs from the input only in host ("api." + host) and path, whose elements are `repos` followed by the input path's elements, with single slashes and none at either end |
| UrlPaths.Join | crawler/github.go:92 | `path.Join`: empty exactly when every argument is empty; otherwise its elements are those of the arguments, in order |
| UrlPaths.Clean | crawler/github.go:92 | `path.Clean`, as `path.Join` applies it: never empty, rooted exactly when its input is, and with the same elements as a non-empty input |
| UrlPaths.CleanIsCleaned | crawler/github.go:92 | the cleaned path is non-empty, holds no doubled slash, and ends in a slash only when it is "/" |
| UrlPaths.JoinIsCleaned | crawler/github.go:92 | a non-empty `path.Join` result holds no doubled slash and ends in a slash only when it is "/" |
| UrlPaths.Trim | crawler/github.go:93 | `strings.Trim(s, "/")`: no longer than its input and with no slash at either end |
| UrlPaths.TrimSlice | crawler/github.go:93 | the trimmed string is the piece of the input after its leading slashes, and only slashes lie outside that piece |
| UrlPaths.TrimmedJoin | crawler/github.go:92-93 | strings.Trim(path.Join(elems...), "/") has exactly the elements of the inputs, in order, joined by single slashes |
| UrlPaths.TrimmedJoinWords | crawler/github.go:195-196 | joining a word, "/" + a word and a word, then trimming, gives the three words separated by single slashes |
| UrlPaths.RemoveAll | crawler/github.go:123 | `strings.Replace(s, pat, "", -1)`: never longer than its input |
| UrlPaths.RemoveAllUnchanged | crawler/github.go:123 | the input comes back unchanged exactly when the pattern does not occur in it |
| UrlPaths.RemoveAllSkip | crawler/github.go:123 | the first occurrence is removed and the scan goes on after it: for `a + pat + b` with no occurrence starting inside `a`, the result is `a` followed by the result for `b` |
| UrlPaths.RemoveTrailing | crawler/github.go:123 | removing every "{+path}" from a contents URL that ends with the template, and has no "{" before it, leaves the URL before the template |
| UrlPaths.HostnameBracketed | crawler/github.go:90 | `URL.Hostname` strips the brackets of an IPv6 literal, with or without a numeric port: "[addr]" and "[addr]:port" both give addr |
| UrlPaths.HostnameApiPrefix | crawler/github.go:90-94 | the host name of "api." + host is "api." + the host name of host, unless the host is a bracketed IPv6 literal |
| UrlPaths.HostnameDropsPort | crawler/github.go:39 | a numeric port is dropped from the host name |
| Github.ResolveSingle | crawler/github.go:83-165 | the requests issued, in order, with the credential header; each early exit with its own error and nothing sent; the contents request only for a public repository whose description re-encodes; one repository per descriptor entry, in listing order, with the exact fields sent; success exactly when something was sent, otherwise the missing-descriptor error; a non-200 listing returns no error |
| Github.CheckDescription | crawler/github.go:97-122 | the early exits, in order: a transport error, a status other than 200, an undecodable description, a private or archived repository, a failed metadata encoding, each with its own error; no error exactly when the contents listing is to be requested |
| Github.ListPublic | crawler/github.go:123-163 | the contents request goes to the contents URL without its "{+path}" template, with the credential header; then the contents stage as in Github.SearchContents, sending copies of Github.SingleFound |
| Github.SingleFound | crawler/github.go:146-156 | the record literal: name, clone URL, branch and metadata from the description, the credential headers, no raw URL yet, the domain with only its host replaced by the web URL's host name, and a host name that is "api." + that host name for hosts that are not IPv6 literals |
| Github.Message | crawler/github.go:103-161 | the text of each error value; the three texts the handler makes up are quoted: "request returned an incorrect http.Status: " + status text, "Skipping private or archived repo", "Repository does not contain " + file name |
| Github.OwnMessagesDistinct | crawler/github.go:103-161 | the error texts the handler makes up ("request returned an incorrect http.Status: …", "Skipping private or archived repo", "Repository does not contain …") are equal only for the same failure with the same status text or file name |
| Github.SearchContents | crawler/github.go:126-163 | the contents stage: a transport error is returned as is; a non-200 listing sends nothing and returns no error; otherwise one record per descriptor entry, and an error exactly when none was found |
| Github.EmitDescriptors | crawler/github.go:141-159 | the search loop sends one copy of the repository per descriptor entry, in order, each carrying that entry's download URL; `foundIt` is set exactly when something was sent |
| Github.CandidatesFromDescriptors | crawler/github.go:146-156 | every record sent differs from the repository template only in its raw URL, which is non-empty |
| Github.Descriptors | crawler/github.go:143-144 | the entries kept are exactly those with the configured name and a non-empty download URL |
| Github.UniqueDescriptor | crawler/github.go:141-162 | a listing with exactly one descriptor entry sends exactly that entry |
| Github.ListOrganization | crawler/github.go:32-77 | one repository per public listed repository whose descriptor lookup found a file, in listing order, with the exact fields sent; each names a public repository of the listing and its descriptor's URL; the next page is decided by `NextPage` |
| Github.EmitEligible | crawler/github.go:45-65 | the listing loop sends exactly the candidates of the kept entries, in order |
| Github.OrgCandidate | crawler/github.go:53-63 | the record literal: name, clone URL and branch of the listed repository, its descriptor's URL, the given domain, whose host is the record's host name, the given publisher and headers, and no metadata |
| Github.CandidatesFromListing | crawler/github.go:45-64 | every record sent names a public repository of the listing and that repository's descriptor URL |
| Github.Kept | crawler/github.go:45-52 | the entries kept are exactly the public ones with a descriptor |
| Github.SkipHidden | crawler/github.go:46-49 | a private or archived repository contributes nothing, and the listing carries on with the rest |
| Github.HiddenLookupIgnored | crawler/github.go:46-52 | the descriptor lookup of a private or archived repository is never consulted: whatever it would find, the same records are sent |
| Github.KeptAppend | crawler/github.go:45-65 | the filter distributes over concatenation, so listing in pieces sends the same records as listing at once |
| Github.NextPage | crawler/github.go:67-76 | there is no next page exactly when the next link is empty or equals the URL just fetched; otherwise the next page is that link, which is never the current page |
| Github.RateLimitUrl | crawler/github.go:222-223 | the probe URL differs from the parsed link only in path ("rate_limit") and host ("api." + host); its host name is "api." + the link's host name for hosts that are not IPv6 literals |
| Github.IsGithub | crawler/github.go:210-237 | an empty link is rejected without a request; a request is made exactly when the link is non-empty and parses, and it goes to path "rate_limit" on host "api." + host; the answer is true exactly when that request succeeds with status 200 |

## Left out

- HTTP calls, the go-github client and JSON decoding: their outcomes are the parameters `repoReply`, `metadata`, `listing` (single repository) and `listing`, `nextLink` (organization). A body that is not valid JSON or not an array leaves the listing empty. A body with a type error in some entry keeps the entries that decoded; that partial result is an `Ok` listing.
- The random choice of a credential (`rand.Intn`) is the parameter `pick`, required to be in range.
- `viper.GetString("CRAWLED_FILENAME")` is the parameter `filename`.
- Logging is not modelled. Sending on the repositories channel is modelled as the returned sequence, in send order.
- `url.Parse` is left out: `IsGithub` takes the parse outcome as `parsed`. `url.String` is left out: the organization lister takes the fetched URL as the string `current`. Its next page is returned as the link text, not re-parsed.
- `httpclient.HeaderLink` is left out: its result is the parameter `nextLink`.
- Github.ListOrganization: models the filter loop and the next-page rule only. The Go handler refers to `metadata` and `resp`, which it never defines. It looks the descriptor up under a fixed "publiccode.yml", calls the lookup through the repository's owner name, and ignores the error from `ListByOrg`. In the model, each repository's lookup outcome is an input (`descriptor`), the records carry empty metadata, and a failed listing is an empty listing. The lookup requests are not recorded. The model reads `descriptor` only for public repositories, as the Go code makes the lookup only after the skip at lines 46-49; Github.HiddenLookupIgnored states this.
- The headless `addGithubProjectsToRepositories` fragment (crawler/github.go:167-187) is not part of this model. Its search loop is the same as the one modelled by Github.EmitDescriptors.
- UrlPaths.Clean and UrlPaths.Join: their own contracts state emptiness, rootedness and the path elements, not the cleaned shape (no doubled slash, no trailing slash except "/"); UrlPaths.CleanIsCleaned and UrlPaths.JoinIsCleaned state that shape, kept apart so that the proofs which use these functions stay small.
- UrlPaths.RemoveAll: its own contract gives only the length bound; UrlPaths.RemoveAllUnchanged, UrlPaths.RemoveAllSkip and UrlPaths.RemoveTrailing state what `strings.Replace` does. No lemma claims the result is free of the pattern, because removing one occurrence can join two pieces into a new one.
- UrlPaths.Hostname: has no contract of its own; UrlPaths.HostnamePlain, UrlPaths.HostnameDropsPort, UrlPaths.HostnameBracketed and UrlPaths.HostnameApiPrefix state what it gives for the hosts the handlers see.
- UrlPaths.Clean and UrlPaths.Join: handle only paths without "." or ".." elements. Resolving those elements is not modelled. The handlers are proved for input paths without them (`DotFree`).
- Url fields other than host and path (scheme, user, query, fragment, raw path) are carried over unchanged. Their escaping by `url.String` is not modelled.
- Github.ResolveSingle: follows the code at crawler/github.go:130-133. A non-200 contents reply returns the nil `err` held at that point, so the handler reports success with nothing sent, contrary to its comment at lines 81-82.
- Github.ResolveSingle: the record's host name is the host name of the rewritten API URL. That is "api." + the domain host for ordinary hosts (Github.SingleFound), but not for IPv6 literals.
- The orchestration around these handlers (probing, cursor store, pagination driver and pipeline) lives outside `crawler/github.go` and is not part of this model.
