/**
 * The pieces of Go's net/url, path and strings packages that the GitHub
 * dialect calls to turn web URLs into API URLs: a URL record, URL.Hostname,
 * strings.Trim on "/", path.Join and path.Clean (for paths without "." or
 * ".." elements), and strings.Replace with an empty replacement.
 *
 * Split, JoinSlash, Components and ComponentsOf are specification helpers,
 * not calls of the handlers: they give the path elements in which the
 * contracts of path.Join, path.Clean and strings.Trim are stated.
 */
module UrlPaths {

  /** A parsed URL (net/url.URL); `user` stands for the userinfo. */
  datatype Url = Url(
    scheme: string,
    opaquePart: string,
    user: string,
    host: string,
    path: string,
    rawPath: string,
    forceQuery: bool,
    rawQuery: string,
    fragment: string,
    rawFragment: string)

  // ---------------------------------------------------------------------
  // Host names

  /** strings.LastIndexByte: the position of the last `c`, or -1. */
  function LastIndex(s: string, c: char): (i: int)
    ensures -1 <= i < |s|
    ensures i >= 0 ==> s[i] == c
    ensures forall j :: i < j < |s| ==> s[j] != c
    decreases |s|
  {
    if |s| == 0 then -1
    else if s[|s| - 1] == c then |s| - 1
    else LastIndex(s[..|s| - 1], c)
  }

  predicate AllDigits(s: string)
  {
    forall i :: 0 <= i < |s| ==> '0' <= s[i] <= '9'
  }

  /** net/url's validOptionalPort: empty, or a colon followed by decimal digits only. */
  predicate ValidOptionalPort(port: string)
  {
    port == "" || (port[0] == ':' && AllDigits(port[1..]))
  }

  /** URL.Hostname: the host without a ":port" suffix and without IPv6 brackets. */
  function Hostname(hostport: string): string
  {
    var colon := LastIndex(hostport, ':');
    var host := if colon != -1 && ValidOptionalPort(hostport[colon..]) then hostport[..colon] else hostport;
    if |host| >= 2 && host[0] == '[' && host[|host| - 1] == ']' then host[1..|host| - 1] else host
  }

  /** The last `c` is the one at `i` when none follows it. */
  lemma {:induction false} LastIndexAt(s: string, c: char, i: nat)
    requires i < |s| && s[i] == c
    requires forall j :: i < j < |s| ==> s[j] != c
    ensures LastIndex(s, c) == i
    decreases |s|
  {
    if i < |s| - 1 {
      LastIndexAt(s[..|s| - 1], c, i);
    }
  }

  /** Brackets around an IPv6 literal are removed, with or without a numeric port after them. */
  lemma HostnameBracketed(addr: string, port: string)
    requires ']' !in addr && AllDigits(port)
    ensures Hostname("[" + addr + "]") == addr
    ensures Hostname("[" + addr + "]:" + port) == addr
  {
    HostnameBracketedBare(addr);
    HostnameBracketedPort(addr, port);
  }

  lemma HostnameBracketedBare(addr: string)
    requires ']' !in addr
    ensures Hostname("[" + addr + "]") == addr
  {
    var bare := "[" + addr + "]";
    var c := LastIndex(bare, ':');
    if c != -1 {
      assert bare[c..][|bare[c..]| - 1] == ']';
      assert !AllDigits(bare[c..][1..]);
    }
    assert bare[1..|bare| - 1] == addr;
  }

  lemma HostnameBracketedPort(addr: string, port: string)
    requires ']' !in addr && AllDigits(port)
    ensures Hostname("[" + addr + "]:" + port) == addr
  {
    var bare := "[" + addr + "]";
    var full := bare + ":" + port;
    assert full == "[" + addr + "]:" + port;
    forall j | |bare| < j < |full|
      ensures full[j] != ':'
    {
      assert full[j] == port[j - |bare| - 1];
    }
    LastIndexAt(full, ':', |bare|);
    assert full[|bare|..] == ":" + port && (":" + port)[1..] == port;
    assert full[..|bare|] == bare;
    assert bare[1..|bare| - 1] == addr;
  }

  /** A host with no port and no brackets is its own host name. */
  lemma HostnamePlain(host: string)
    requires ':' !in host
    requires host == "" || host[0] != '['
    ensures Hostname(host) == host
  {
  }

  /** A numeric port is dropped. */
  lemma HostnameDropsPort(name: string, port: string)
    requires ':' !in name
    requires name == "" || name[0] != '['
    requires AllDigits(port)
    ensures Hostname(name + ":" + port) == name
  {
    var hp := name + ":" + port;
    assert hp[|name|] == ':';
    assert forall j :: |name| < j < |hp| ==> hp[j] == port[j - |name| - 1];
    var colon := LastIndex(hp, ':');
    assert colon == |name|;
    assert hp[..colon] == name;
    assert hp[colon..][1..] == port;
  }

  /**
   * Prefixing a host with "api." prefixes its host name the same way,
   * unless the host is a bracketed IPv6 literal.
   */
  lemma {:induction false} HostnameApiPrefix(host: string)
    requires host == "" || host[0] != '['
    ensures Hostname("api." + host) == "api." + Hostname(host)
  {
    var full := "api." + host;
    var c := LastIndex(host, ':');
    var cf := LastIndex(full, ':');
    LastIndexShift("api.", host, ':');
    assert cf == (if c == -1 then -1 else c + 4);
    if c != -1 {
      assert full[cf..] == host[c..];
      assert full[..cf] == "api." + host[..c];
    }
  }

  /** The last occurrence in `a + b` is the last one in `b` when `a` has none. */
  lemma {:induction false} LastIndexShift(a: string, b: string, c: char)
    requires c !in a
    ensures LastIndex(a + b, c) == (if LastIndex(b, c) == -1 then -1 else LastIndex(b, c) + |a|)
    decreases |b|
  {
    if |b| == 0 {
      assert a + b == a;
    } else {
      assert (a + b)[..|a + b| - 1] == a + b[..|b| - 1];
      if b[|b| - 1] != c {
        LastIndexShift(a, b[..|b| - 1], c);
      }
    }
  }

  // ---------------------------------------------------------------------
  // Slash-separated paths

  /** The pieces joined by single slashes (what strings.Join(parts, "/") would give). */
  function JoinSlash(parts: seq<string>): string
    decreases |parts|
  {
    if |parts| == 0 then ""
    else if |parts| == 1 then parts[0]
    else parts[0] + "/" + JoinSlash(parts[1..])
  }

  /** strings.IndexByte: the position of the first `c`, or -1. */
  function Index(s: string, c: char): (i: int)
    ensures -1 <= i < |s|
    decreases |s|
  {
    if |s| == 0 then -1
    else if s[0] == c then 0
    else var k := Index(s[1..], c); if k == -1 then -1 else k + 1
  }

  /** Index finds a `c`, and there is none before it (none at all when it returns -1). */
  lemma {:induction false} IndexSpec(s: string, c: char)
    ensures var i := Index(s, c);
      (i >= 0 ==> s[i] == c) && forall j :: 0 <= j < |s| && (i == -1 || j < i) ==> s[j] != c
    decreases |s|
  {
    if |s| > 0 && s[0] != c {
      IndexSpec(s[1..], c);
      assert forall j :: 1 <= j < |s| ==> s[j] == s[1..][j - 1];
    }
  }

  /** The slash-free pieces between the slashes (what strings.Split(s, "/") would give). */
  function Split(s: string): (parts: seq<string>)
    ensures |parts| >= 1
    decreases |s|
  {
    var i := Index(s, '/');
    if i == -1 then [s] else SplitRest(s, i)
  }

  /** The piece before the slash at `i`, then the split of what follows it. */
  function SplitRest(s: string, i: nat): seq<string>
    requires i < |s|
    decreases |s|, 0
  {
    [s[..i]] + Split(s[i + 1..])
  }

  /** No piece of a split holds a slash. */
  lemma {:induction false} SplitNoSlash(s: string)
    ensures forall p :: p in Split(s) ==> '/' !in p
    decreases |s|
  {
    var i := Index(s, '/');
    IndexSpec(s, '/');
    if i != -1 {
      SplitNoSlash(s[i + 1..]);
      assert Split(s) == [s[..i]] + Split(s[i + 1..]);
    }
  }

  /** Joining the pieces of a split gives back the string. */
  lemma {:induction false} JoinSplit(s: string)
    ensures JoinSlash(Split(s)) == s
    decreases |s|
  {
    var i := Index(s, '/');
    IndexSpec(s, '/');
    if i != -1 {
      var rest := Split(s[i + 1..]);
      JoinSplit(s[i + 1..]);
      JoinSlashPrepend(s[..i], rest);
      CutAt(s, i);
    }
  }

  lemma JoinSlashPrepend(x: string, rest: seq<string>)
    requires |rest| >= 1
    ensures JoinSlash([x] + rest) == x + "/" + JoinSlash(rest)
  {
    assert ([x] + rest)[1..] == rest;
  }

  lemma CutAt(s: string, i: int)
    requires 0 <= i < |s| && s[i] == '/'
    ensures s == s[..i] + "/" + s[i + 1..]
  {
  }

  /** The non-empty strings of `parts`, in order. */
  function NonEmpty(parts: seq<string>): (r: seq<string>)
    ensures forall p :: p in r <==> p in parts && p != ""
    ensures |r| <= |parts|
    decreases |parts|
  {
    if |parts| == 0 then []
    else if parts[0] == "" then NonEmpty(parts[1..])
    else [parts[0]] + NonEmpty(parts[1..])
  }

  /** The elements of a path: the non-empty pieces between slashes. */
  function Components(s: string): (cs: seq<string>)
    ensures forall c :: c in cs ==> c != "" && '/' !in c
  {
    SplitNoSlash(s);
    NonEmpty(Split(s))
  }

  /** The components of several paths, one after another. */
  function ComponentsOf(elems: seq<string>): seq<string>
    decreases |elems|
  {
    if |elems| == 0 then [] else Components(elems[0]) + ComponentsOf(elems[1..])
  }

  lemma ComponentsOfPair(a: string, b: string)
    ensures ComponentsOf([a, b]) == Components(a) + Components(b)
  {
    assert [a, b][1..] == [b];
    assert [b][1..] == [];
    assert ComponentsOf([b]) == Components(b) + ComponentsOf([]);
  }

  lemma ComponentsOfTriple(a: string, b: string, c: string)
    ensures ComponentsOf([a, b, c]) == Components(a) + Components(b) + Components(c)
  {
    assert [a, b, c][1..] == [b, c];
    ComponentsOfPair(b, c);
  }

  /** A path with no "." or ".." element. */
  predicate DotFree(p: string)
  {
    forall c :: c in Components(p) ==> c != "." && c != ".."
  }

  /** A path made of its components joined by single slashes: no slash at either end, none doubled. */
  predicate Canonical(p: string)
  {
    p == JoinSlash(Components(p))
  }

  /** No slash at either end. */
  predicate NoEdgeSlash(p: string)
  {
    |p| == 0 || (p[0] != '/' && p[|p| - 1] != '/')
  }

  lemma CanonicalEdges(p: string)
    requires Canonical(p)
    ensures NoEdgeSlash(p)
  {
    if Components(p) != [] {
      JoinSlashEdges(Components(p));
    }
  }

  lemma {:induction false} SplitAppend(a: string, b: string)
    ensures Split(a + "/" + b) == Split(a) + Split(b)
    decreases |a|
  {
    var i := Index(a, '/');
    if i == -1 {
      SplitAppendWord(a, b);
    } else {
      SplitAppend(a[i + 1..], b);
      SplitAppendStep(a, b, i);
    }
  }

  lemma SplitAppendWord(a: string, b: string)
    requires Index(a, '/') == -1
    ensures Split(a + "/" + b) == Split(a) + Split(b)
  {
    var s := a + "/" + b;
    Slice3(a, "/", b, |a|);
    IndexSpec(a, '/');
    IndexIs(s, '/', |a|);
    SplitAt(s, |a|);
    assert s[..|a|] == a && s[|a| + 1..] == b;
    assert Split(s) == [a] + Split(b);
    assert Split(a) == [a];
  }

  lemma SplitAppendStep(a: string, b: string, i: nat)
    requires Index(a, '/') == i
    requires i < |a| && Split(a[i + 1..] + "/" + b) == Split(a[i + 1..]) + Split(b)
    ensures Split(a + "/" + b) == Split(a) + Split(b)
  {
    var s := a + "/" + b;
    Slice3(a, "/", b, i);
    Slice3(a, "/", b, i + 1);
    IndexSpec(a, '/');
    IndexIs(s, '/', i);
    SplitAt(s, i);
    SplitAt(a, i);
    AppendAssoc([a[..i]], Split(a[i + 1..]), Split(b));
  }

  /** Slicing a three-part concatenation inside its first part. */
  lemma Slice3<T>(a: seq<T>, m: seq<T>, b: seq<T>, i: nat)
    requires i <= |a|
    ensures (a + m + b)[..i] == a[..i]
    ensures (a + m + b)[i..] == a[i..] + m + b
    ensures forall j :: 0 <= j < |a| ==> (a + m + b)[j] == a[j]
  {
  }

  lemma AppendAssoc<T>(x: seq<T>, y: seq<T>, z: seq<T>)
    ensures x + (y + z) == (x + y) + z
  {
  }

  /** The first slash is the one at `i` when there is none before it. */
  lemma {:induction false} IndexIs(s: string, c: char, i: nat)
    requires i < |s| && s[i] == c
    requires forall j :: 0 <= j < i ==> s[j] != c
    ensures Index(s, c) == i
    decreases i
  {
    if i > 0 {
      IndexIs(s[1..], c, i - 1);
    }
  }

  /** Splitting at the first slash. */
  lemma SplitAt(s: string, i: nat)
    requires Index(s, '/') == i
    ensures i < |s| && Split(s) == [s[..i]] + Split(s[i + 1..])
  {
  }

  lemma {:induction false} NonEmptyAppend(x: seq<string>, y: seq<string>)
    ensures NonEmpty(x + y) == NonEmpty(x) + NonEmpty(y)
    decreases |x|
  {
    if |x| == 0 {
      assert x + y == y;
    } else {
      assert (x + y)[1..] == x[1..] + y;
      NonEmptyAppend(x[1..], y);
    }
  }

  /** Components distribute over a slash. */
  lemma ComponentsAppend(a: string, b: string)
    ensures Components(a + "/" + b) == Components(a) + Components(b)
  {
    SplitAppend(a, b);
    NonEmptyAppend(Split(a), Split(b));
  }

  /** A single word is its own only component. */
  lemma ComponentsOfWord(w: string)
    requires w != "" && '/' !in w
    ensures Components(w) == [w]
  {
    IndexSpec(w, '/');
    assert Split(w) == [w];
  }

  /** Joining components and splitting them again gives them back. */
  lemma {:induction false} ComponentsJoinSlash(ps: seq<string>)
    requires forall p :: p in ps ==> p != "" && '/' !in p
    ensures Components(JoinSlash(ps)) == ps
    decreases |ps|
  {
    if |ps| > 0 {
      assert ps[0] in ps;
      ComponentsOfWord(ps[0]);
    }
    if |ps| > 1 {
      assert forall p :: p in ps[1..] ==> p in ps;
      ComponentsAppend(ps[0], JoinSlash(ps[1..]));
      ComponentsJoinSlash(ps[1..]);
    }
  }

  /** The components of a slash-join are those of the pieces. */
  lemma {:induction false} ComponentsOfJoin(ps: seq<string>)
    ensures Components(JoinSlash(ps)) == ComponentsOf(ps)
    decreases |ps|
  {
    if |ps| == 1 {
      assert ps[1..] == [];
    } else if |ps| > 1 {
      ComponentsAppend(ps[0], JoinSlash(ps[1..]));
      ComponentsOfJoin(ps[1..]);
    }
  }

  /** Dropping empty strings drops no component. */
  lemma {:induction false} ComponentsOfNonEmpty(elems: seq<string>)
    ensures ComponentsOf(NonEmpty(elems)) == ComponentsOf(elems)
    decreases |elems|
  {
    if |elems| > 0 {
      ComponentsOfNonEmpty(elems[1..]);
      if elems[0] == "" {
        assert Components("") == [];
      } else {
        assert ([elems[0]] + NonEmpty(elems[1..]))[1..] == NonEmpty(elems[1..]);
      }
    }
  }

  /** A path that does not start with a slash has a first component. */
  lemma UnrootedHasComponent(p: string)
    requires |p| > 0 && p[0] != '/'
    ensures Components(p) != []
  {
    var parts := Split(p);
    IndexSpec(p, '/');
    var i := Index(p, '/');
    if i != -1 {
      assert parts[0] == SplitRest(p, i)[0] == p[..i];
    }
    assert parts[0] != "";
    assert parts == [parts[0]] + parts[1..];
  }

  /** The components of a slash-join of words, with single slashes, have no slash at either end. */
  lemma {:induction false} JoinSlashEdges(ps: seq<string>)
    requires ps != []
    requires forall p :: p in ps ==> p != "" && '/' !in p
    ensures var s := JoinSlash(ps); |s| > 0 && s[0] != '/' && s[|s| - 1] != '/'
    decreases |ps|
  {
    assert ps[0] in ps;
    assert ps[0][0] in ps[0] && ps[0][|ps[0]| - 1] in ps[0];
    if |ps| > 1 {
      assert forall p :: p in ps[1..] ==> p in ps;
      JoinSlashEdges(ps[1..]);
    }
  }

  lemma JoinSlashNonEmpty(ps: seq<string>)
    requires ps != [] && ps[0] != ""
    ensures |JoinSlash(ps)| > 0
  {
  }

  /**
   * path.Clean, for a path with no "." or ".." element: never empty, rooted
   * exactly when its input is, and with the same elements as a non-empty input.
   */
  function Clean(p: string): (r: string)
    requires DotFree(p)
    ensures r != ""
    ensures r[0] == '/' <==> |p| > 0 && p[0] == '/'
    ensures p != "" ==> Components(r) == Components(p)
  {
    CleanFacts(p);
    var body := JoinSlash(Components(p));
    if |p| > 0 && p[0] == '/' then "/" + body
    else if body == "" then "."
    else body
  }

  /**
   * path.Join: the non-empty elements joined by slashes, then cleaned.  The
   * result is empty only when every element is, and its elements are those
   * of the arguments, in order.
   */
  function Join(elems: seq<string>): (r: string)
    requires forall e :: e in elems ==> DotFree(e)
    ensures r == "" <==> NonEmpty(elems) == []
    ensures Components(r) == ComponentsOf(elems)
  {
    var parts := NonEmpty(elems);
    ComponentsOfJoin(parts);
    ComponentsOfNonEmpty(elems);
    ComponentsOfDotFree(elems);
    if parts == [] then
      assert Split("") == [""];
      ""
    else
      assert parts[0] in parts;
      JoinSlashNonEmpty(parts);
      Clean(JoinSlash(parts))
  }

  /** A cleaned path has no doubled slash, and only "/" itself ends in a slash. */
  lemma CleanIsCleaned(p: string)
    requires DotFree(p)
    ensures Cleaned(Clean(p))
  {
    CleanShape(JoinSlash(Components(p)), Components(p));
  }

  /** So has the result of path.Join, unless it is empty. */
  lemma JoinIsCleaned(elems: seq<string>)
    requires forall e :: e in elems ==> DotFree(e)
    ensures Join(elems) != "" ==> Cleaned(Join(elems))
  {
    if NonEmpty(elems) != [] {
      JoinUnfold(elems);
      CleanIsCleaned(JoinSlash(NonEmpty(elems)));
    }
  }

  /** What Clean relies on: the slash-join of a path's elements has those elements, and no slash at its start. */
  lemma CleanFacts(p: string)
    ensures var cs := Components(p); var body := JoinSlash(cs);
      Components(body) == cs && Components("/" + body) == cs &&
      (body == "" <==> cs == []) && (body != "" ==> body[0] != '/') &&
      (|p| > 0 && p[0] != '/' ==> cs != [])
  {
    var cs := Components(p);
    ComponentsJoinSlash(cs);
    RootedComponents(JoinSlash(cs));
    if cs != [] {
      JoinSlashEdges(cs);
    }
    if |p| > 0 && p[0] != '/' {
      UnrootedHasComponent(p);
    }
  }

  /** No two slashes in a row. */
  predicate NoDoubleSlash(s: string)
  {
    forall i :: 0 <= i < |s| - 1 ==> !(s[i] == '/' && s[i + 1] == '/')
  }

  /** The shape of a cleaned path: no slash doubled, and only "/" itself ends in a slash. */
  predicate Cleaned(r: string)
  {
    r != "" && NoDoubleSlash(r) && (r[|r| - 1] == '/' ==> r == "/")
  }

  /** The three forms Clean returns are all cleaned. */
  lemma CleanShape(body: string, cs: seq<string>)
    requires body == JoinSlash(cs) && forall c :: c in cs ==> c != "" && '/' !in c
    ensures Cleaned("/" + body) && (body != "" ==> Cleaned(body)) && Cleaned(".")
  {
    assert NoDoubleSlash(".");
    JoinSlashSingle(cs);
    if cs != [] {
      JoinSlashEdges(cs);
      NoDoubleSlashConcat("/", body);
    } else {
      assert "/" + body == "/";
    }
  }

  lemma {:induction false} JoinSlashSingle(cs: seq<string>)
    requires forall c :: c in cs ==> c != "" && '/' !in c
    ensures NoDoubleSlash(JoinSlash(cs))
    decreases |cs|
  {
    if |cs| == 1 {
      assert cs[0] in cs;
    } else if |cs| > 1 {
      assert cs[0] in cs;
      assert forall c :: c in cs[1..] ==> c in cs;
      JoinSlashSingle(cs[1..]);
      JoinSlashEdges(cs[1..]);
      var head := cs[0];
      assert head[|head| - 1] in head;
      NoDoubleSlashConcat(head, "/");
      NoDoubleSlashConcat(head + "/", JoinSlash(cs[1..]));
    }
  }

  /** Two strings without doubled slashes, not meeting slash to slash, concatenate to one without. */
  lemma NoDoubleSlashConcat(a: string, b: string)
    requires NoDoubleSlash(a) && NoDoubleSlash(b)
    requires a == "" || b == "" || a[|a| - 1] != '/' || b[0] != '/'
    ensures NoDoubleSlash(a + b)
  {
    var s := a + b;
    forall i | 0 <= i < |s| - 1
      ensures !(s[i] == '/' && s[i + 1] == '/')
    {
      if i + 1 < |a| {
        assert s[i] == a[i] && s[i + 1] == a[i + 1];
      } else if i >= |a| {
        assert s[i] == b[i - |a|] && s[i + 1] == b[i + 1 - |a|];
      } else {
        assert s[i] == a[|a| - 1] && s[i + 1] == b[0];
      }
    }
  }

  /** A leading slash adds no element. */
  lemma RootedComponents(p: string)
    ensures Components("/" + p) == Components(p)
  {
    ComponentsAppend("", p);
    assert "" + "/" + p == "/" + p;
    assert Split("") == [""];
  }

  lemma {:induction false} ComponentsOfDotFree(elems: seq<string>)
    requires forall e :: e in elems ==> DotFree(e)
    ensures forall c :: c in ComponentsOf(elems) ==> c != "." && c != ".."
    decreases |elems|
  {
    if |elems| > 0 {
      assert elems[0] in elems;
      assert forall e :: e in elems[1..] ==> e in elems;
      ComponentsOfDotFree(elems[1..]);
    }
  }

  function TrimLeft(s: string): (r: string)
    ensures |r| <= |s|
    decreases |s|
  {
    if |s| > 0 && s[0] == '/' then TrimLeft(s[1..]) else s
  }

  function TrimRight(s: string): (r: string)
    ensures |r| <= |s|
    decreases |s|
  {
    if |s| > 0 && s[|s| - 1] == '/' then TrimRight(s[..|s| - 1]) else s
  }

  /** strings.Trim(s, "/"): every leading and trailing slash removed. */
  function Trim(s: string): (r: string)
    ensures |r| <= |s| && NoEdgeSlash(r)
  {
    TrimLeftSpec(s);
    TrimRightSpec(TrimLeft(s));
    TrimRight(TrimLeft(s))
  }

  /**
   * Trim keeps the piece of `s` that starts after its leading slashes, and
   * only slashes lie outside that piece.
   */
  lemma TrimSlice(s: string)
    ensures var r, k := Trim(s), |s| - |TrimLeft(s)|;
      0 <= k && k + |r| <= |s| && r == s[k..k + |r|] &&
      (forall i :: 0 <= i < k ==> s[i] == '/') &&
      (forall i :: k + |r| <= i < |s| ==> s[i] == '/')
  {
    TrimLeftSpec(s);
    TrimRightSpec(TrimLeft(s));
  }

  lemma {:induction false} TrimLeftSpec(s: string)
    ensures var r := TrimLeft(s); var k := |s| - |r|;
      |r| <= |s| && r == s[k..] && (r == "" || r[0] != '/') && forall i :: 0 <= i < k ==> s[i] == '/'
    decreases |s|
  {
    if |s| > 0 && s[0] == '/' {
      TrimLeftSpec(s[1..]);
    }
  }

  lemma {:induction false} TrimRightSpec(s: string)
    ensures var r := TrimRight(s);
      |r| <= |s| && r == s[..|r|] && (r == "" || r[|r| - 1] != '/') && forall i :: |r| <= i < |s| ==> s[i] == '/'
    decreases |s|
  {
    if |s| > 0 && s[|s| - 1] == '/' {
      TrimRightSpec(s[..|s| - 1]);
    }
  }

  lemma TrimUnchanged(s: string)
    requires |s| > 0 && s[0] != '/' && s[|s| - 1] != '/'
    ensures Trim(s) == s
  {
  }

  /**
   * strings.Trim(path.Join(elems...), "/"), the way the GitHub handlers
   * build API paths: its components are those of the elements, in order,
   * joined by single slashes with none at either end.
   */
  lemma TrimmedJoin(elems: seq<string>)
    requires forall e :: e in elems ==> DotFree(e)
    ensures var r := Trim(Join(elems));
      Components(r) == ComponentsOf(elems) && r == JoinSlash(ComponentsOf(elems))
  {
    if NonEmpty(elems) == [] {
      TrimmedJoinNothing(elems);
    } else {
      TrimmedJoinSome(elems);
    }
  }

  lemma TrimmedJoinNothing(elems: seq<string>)
    requires forall e :: e in elems ==> DotFree(e)
    requires NonEmpty(elems) == []
    ensures var r := Trim(Join(elems));
      Components(r) == ComponentsOf(elems) && r == JoinSlash(ComponentsOf(elems))
  {
    ComponentsOfNonEmpty(elems);
    assert Join(elems) == "" && ComponentsOf(elems) == [];
    assert Split("") == [""];
  }

  lemma TrimmedJoinSome(elems: seq<string>)
    requires forall e :: e in elems ==> DotFree(e)
    requires NonEmpty(elems) != []
    ensures var r := Trim(Join(elems));
      Components(r) == ComponentsOf(elems) && r == JoinSlash(ComponentsOf(elems))
  {
    var parts := NonEmpty(elems);
    var cs := ComponentsOf(elems);
    ComponentsOfNonEmpty(elems);
    JoinUnfold(elems);
    ComponentsOfJoin(parts);
    var joined := JoinSlash(parts);
    if cs != [] {
      TrimmedCleanWords(joined, cs);
    } else {
      TrimmedCleanSlashes(parts);
    }
  }

  /** With some non-empty element, path.Join cleans the slash-join of those elements. */
  lemma JoinUnfold(elems: seq<string>)
    requires forall e :: e in elems ==> DotFree(e)
    requires NonEmpty(elems) != []
    ensures DotFree(JoinSlash(NonEmpty(elems)))
    ensures Join(elems) == Clean(JoinSlash(NonEmpty(elems)))
  {
    ComponentsOfNonEmpty(elems);
    ComponentsOfJoin(NonEmpty(elems));
    ComponentsOfDotFree(elems);
  }

  /** A path with at least one component cleans and trims to its components joined by single slashes. */
  lemma TrimmedCleanWords(p: string, cs: seq<string>)
    requires DotFree(p) && Components(p) == cs && cs != []
    ensures Trim(Clean(p)) == JoinSlash(cs) && Components(JoinSlash(cs)) == cs
  {
    var body := JoinSlash(cs);
    JoinSlashEdges(cs);
    ComponentsJoinSlash(cs);
    if |p| > 0 && p[0] == '/' {
      assert ("/" + body)[1..] == body;
    }
    TrimUnchanged(body);
  }

  /** Non-empty pieces without any component are slashes only: they clean to "/", which trims to "". */
  lemma TrimmedCleanSlashes(parts: seq<string>)
    requires parts != [] && forall e :: e in parts ==> e != ""
    requires Components(JoinSlash(parts)) == []
    ensures DotFree(JoinSlash(parts)) && Trim(Clean(JoinSlash(parts))) == ""
  {
    var joined := JoinSlash(parts);
    assert parts[0] in parts;
    JoinSlashNonEmpty(parts);
    if joined[0] != '/' {
      UnrootedHasComponent(joined);
      assert false;
    }
    assert Trim("/") == "";
  }

  /** A path element: non-empty, slash-free, neither "." nor "..". */
  predicate IsWord(w: string)
  {
    w != "" && '/' !in w && w != "." && w != ".."
  }

  /** A word is its own, dot-free, only component. */
  lemma Word(w: string)
    requires IsWord(w)
    ensures Components(w) == [w] && DotFree(w)
  {
    ComponentsOfWord(w);
  }

  /** A rooted one-word path has that word as its only component. */
  lemma RootedWord(w: string)
    requires IsWord(w)
    ensures Components("/" + w) == [w] && DotFree("/" + w)
  {
    ComponentsAppend("", w);
    ComponentsOfWord(w);
    assert "" + "/" + w == "/" + w;
    assert Components("") == [];
  }

  lemma JoinSlashThree(a: string, b: string, c: string)
    ensures JoinSlash([a, b, c]) == a + "/" + b + "/" + c
  {
    assert [a, b, c][1..] == [b, c];
    assert [b, c][1..] == [c];
    assert JoinSlash([c]) == c;
    assert JoinSlash([b, c]) == b + "/" + c;
  }

  /** Joining a word, a rooted one-word path and a word gives the three words with single slashes. */
  lemma TrimmedJoinWords(a: string, name: string, c: string)
    requires IsWord(a) && IsWord(name) && IsWord(c)
    ensures DotFree(a) && DotFree("/" + name) && DotFree(c) &&
      Trim(Join([a, "/" + name, c])) == a + "/" + name + "/" + c
  {
    Word(a);
    Word(c);
    RootedWord(name);
    ComponentsOfTriple(a, "/" + name, c);
    assert ComponentsOf([a, "/" + name, c]) == [a, name, c];
    TrimmedJoin([a, "/" + name, c]);
    JoinSlashThree(a, name, c);
  }

  // ---------------------------------------------------------------------
  // Replacement

  /** strings.Replace(s, pat, "", -1): every non-overlapping occurrence, scanned left to right, removed. */
  function RemoveAll(s: string, pat: string): (r: string)
    requires |pat| > 0
    ensures |r| <= |s|
    decreases |s|
  {
    if |s| < |pat| then s
    else if s[..|pat|] == pat then RemoveAll(s[|pat|..], pat)
    else [s[0]] + RemoveAll(s[1..], pat)
  }

  /** The string comes back unchanged exactly when the pattern does not occur in it. */
  lemma {:induction false} RemoveAllUnchanged(s: string, pat: string)
    requires |pat| > 0
    ensures RemoveAll(s, pat) == s <==> !Occurs(s, pat)
    decreases |s|
  {
    if |s| < |pat| {
      assert !Occurs(s, pat);
    } else if s[..|pat|] == pat {
      assert OccursAt(s, pat, 0);
      assert |RemoveAll(s, pat)| < |s|;
    } else {
      OccursShift(s, pat);
      RemoveAllUnchanged(s[1..], pat);
      var r := RemoveAll(s[1..], pat);
      assert RemoveAll(s, pat) == [s[0]] + r;
      assert [s[0]] + s[1..] == s;
      if [s[0]] + r == s {
        assert r == ([s[0]] + r)[1..];
      }
    }
  }

  /**
   * Every occurrence goes, not only the first: up to the first occurrence the
   * string is kept, that occurrence is dropped, and the rest is treated alike.
   */
  lemma {:induction false} RemoveAllSkip(a: string, pat: string, b: string)
    requires |pat| > 0
    requires forall i :: 0 <= i < |a| ==> !OccursAt(a + pat + b, pat, i)
    ensures RemoveAll(a + pat + b, pat) == a + RemoveAll(b, pat)
    decreases |a|
  {
    if |a| == 0 {
      var s := a + pat + b;
      assert s == pat + b && s[..|pat|] == pat && s[|pat|..] == b;
    } else {
      NoEarlyOccurrenceTail(a, pat, b);
      RemoveAllSkip(a[1..], pat, b);
      RemoveAllKeepsHead(a, pat, b);
    }
  }

  /** With no occurrence at its start, the head character is kept. */
  lemma RemoveAllKeepsHead(a: string, pat: string, b: string)
    requires |pat| > 0 && |a| > 0 && !OccursAt(a + pat + b, pat, 0)
    requires RemoveAll(a[1..] + pat + b, pat) == a[1..] + RemoveAll(b, pat)
    ensures RemoveAll(a + pat + b, pat) == a + RemoveAll(b, pat)
  {
    var s := a + pat + b;
    assert |s| >= |pat| && s[..|pat|] != pat by {
      assert s[0..0 + |pat|] == s[..|pat|];
    }
    assert s[1..] == a[1..] + pat + b;
    assert RemoveAll(s, pat) == [s[0]] + RemoveAll(s[1..], pat);
    AppendAssoc([a[0]], a[1..], RemoveAll(b, pat));
    assert [a[0]] + a[1..] == a;
  }

  /** No occurrence before `pat` in `a + pat + b`: the same holds one character on. */
  lemma NoEarlyOccurrenceTail(a: string, pat: string, b: string)
    requires |a| > 0
    requires forall i :: 0 <= i < |a| ==> !OccursAt(a + pat + b, pat, i)
    ensures !OccursAt(a + pat + b, pat, 0)
    ensures forall i :: 0 <= i < |a[1..]| ==> !OccursAt(a[1..] + pat + b, pat, i)
  {
    var s := a + pat + b;
    assert s[1..] == a[1..] + pat + b;
    forall i | 0 <= i < |a[1..]|
      ensures !OccursAt(a[1..] + pat + b, pat, i)
    {
      assert !OccursAt(s, pat, i + 1);
      if i + |pat| <= |s[1..]| {
        assert s[1..][i..i + |pat|] == s[i + 1..i + 1 + |pat|];
      }
    }
  }

  /** `pat` occurs somewhere in `s`. */
  ghost predicate Occurs(s: string, pat: string)
  {
    exists i :: OccursAt(s, pat, i)
  }

  /** `pat` occurs in `s` at position `i`. */
  predicate OccursAt(s: string, pat: string, i: int)
  {
    0 <= i && i + |pat| <= |s| && s[i..i + |pat|] == pat
  }

  /** Past a position where `pat` does not start, its occurrences are those of the tail. */
  lemma OccursShift(s: string, pat: string)
    requires |s| > 0 && !OccursAt(s, pat, 0)
    ensures Occurs(s, pat) <==> Occurs(s[1..], pat)
  {
    if Occurs(s, pat) {
      var i :| OccursAt(s, pat, i);
      assert s[1..][i - 1..i - 1 + |pat|] == s[i..i + |pat|];
      assert OccursAt(s[1..], pat, i - 1);
    }
    if Occurs(s[1..], pat) {
      var i :| OccursAt(s[1..], pat, i);
      assert s[i + 1..i + 1 + |pat|] == s[1..][i..i + |pat|];
      assert OccursAt(s, pat, i + 1);
    }
  }

  /** A template whose only placeholder is at the end loses exactly the placeholder. */
  lemma {:induction false} RemoveTrailing(prefix: string, pat: string)
    requires |pat| > 0 && pat[0] !in prefix
    ensures RemoveAll(prefix + pat, pat) == prefix
    decreases |prefix|
  {
    var s := prefix + pat;
    if |prefix| == 0 {
      assert s == pat && s[|pat|..] == "";
    } else {
      assert s[0] == prefix[0] && s[..|pat|][0] == prefix[0];
      assert s[1..] == prefix[1..] + pat;
      RemoveTrailing(prefix[1..], pat);
    }
  }
}
