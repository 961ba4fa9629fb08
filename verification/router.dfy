/** The static route table of src/Responders/Router.cs: embedded resource
    names (`CookieClicker.folder.file.ext`) become URL paths under
    `/cookie_clicker/` (`folder/file.ext`), next to the fixed API route; a
    request path is looked up in the table. Reading resource streams and
    rendering Markdown are left to the caller; a route records only which
    resource it serves and whether it is rendered from Markdown. */
module Router {
  import opened Wrappers
  import Dictionary

  /** `"CookieClicker.".Length` characters are skipped from every name. */
  const NAMESPACE_PREFIX: string := "CookieClicker."
  const ROUTE_PREFIX: string := "/cookie_clicker/"
  const API_ROUTE: string := "/cookie_clicker_dev/api"

  datatype Route =
    | ApiRoute                                   // Result.Success(default)
    | ResourceRoute(resource: string, markdown: bool)

  datatype Response =
    | NoResponse                                 // unknown path: nothing is sent
    | Respond(route: Route, extension: string)   // sent with the serializer for `extension`

  /** `string.LastIndexOf(char)`: the last index of `c`, or -1. */
  function LastIndexOf(s: string, c: char): (r: int)
    ensures -1 <= r < |s|
    ensures r >= 0 ==> s[r] == c
    ensures forall i :: r < i < |s| ==> s[i] != c
    decreases |s|
  {
    if s == [] then -1
    else if s[|s| - 1] == c then |s| - 1
    else LastIndexOf(s[..|s| - 1], c)
  }

  /** The URL form of a resource name: the first 14 characters are dropped,
      and of the rest every '.' that is not the last '.' of the whole name
      becomes '/'; every other character is kept. */
  function UrlName(name: string): (url: string)
    ensures |url| == if |name| >= |NAMESPACE_PREFIX| then |name| - |NAMESPACE_PREFIX| else 0
    ensures forall k :: 0 <= k < |url| ==>
              var c := name[k + |NAMESPACE_PREFIX|];
              url[k] == if c == '.' && exists j :: k + |NAMESPACE_PREFIX| < j < |name| && name[j] == '.'
                        then '/' else c
  {
    var last := LastIndexOf(name, '.');
    var n := |NAMESPACE_PREFIX|;
    if |name| < n then []
    else seq(|name| - n, k requires 0 <= k < |name| - n =>
               if name[k + n] == '.' && last != k + n then '/' else name[k + n])
  }

  /** Converting keeps the last '.' of a name that has one after the prefix,
      so the extension of the URL is the extension of the resource. */
  lemma UrlNameKeepsExtension(name: string)
    requires LastIndexOf(name, '.') >= |NAMESPACE_PREFIX|
    ensures var url := UrlName(name);
            var k := LastIndexOf(name, '.') - |NAMESPACE_PREFIX|;
            && url[k] == '.'
            && LastIndexOf(url, '.') == k
            && url[k + 1..] == name[k + 1 + |NAMESPACE_PREFIX|..]
  {
    var url := UrlName(name);
    var n := |NAMESPACE_PREFIX|;
    var last := LastIndexOf(name, '.');
    var k := last - n;
    assert url[k] == '.' by {
      assert !exists j :: last < j < |name| && name[j] == '.';
    }
    forall i | k < i < |url| ensures url[i] == name[i + n] && url[i] != '.' {
      assert name[i + n] != '.';
    }
    assert url[k + 1..] == name[k + 1 + n..];
    LastIndexOfIs(url, '.', k);
  }

  /** LastIndexOf finds a '.' followed only by other characters. */
  lemma {:induction false} LastIndexOfIs(s: string, c: char, k: int)
    requires 0 <= k < |s| && s[k] == c
    requires forall i :: k < i < |s| ==> s[i] != c
    ensures LastIndexOf(s, c) == k
    decreases |s|
  {
    if s[|s| - 1] != c {
      LastIndexOfIs(s[..|s| - 1], c, k);
    }
  }

  /** The route of one resource: `"/cookie_clicker/" + url`, rendered from
      Markdown when the URL ends in ".md". */
  function ResourceEntry(name: string): (e: (string, Route))
    ensures e.0 == ROUTE_PREFIX + UrlName(name)
    ensures e.1.ResourceRoute? && e.1.resource == name
    ensures e.1.markdown <==> |UrlName(name)| >= 3 && UrlName(name)[|UrlName(name)| - 3..] == ".md"
  {
    var url := UrlName(name);
    (ROUTE_PREFIX + url, ResourceRoute(name, |url| >= 3 && url[|url| - 3..] == ".md"))
  }

  function ResourceEntries(names: seq<string>): (es: seq<(string, Route)>)
    ensures |es| == |names| && forall i :: 0 <= i < |names| ==> es[i] == ResourceEntry(names[i])
  {
    seq(|names|, i requires 0 <= i < |names| => ResourceEntry(names[i]))
  }

  /** The static constructor: the API route, then one Dictionary.Add per
      manifest resource, in manifest order. A repeated URL throws. */
  function BuildRoutes(resourceNames: seq<string>): (r: Result<map<string, Route>, string>)
    ensures r.Success? <==> forall i, j :: 0 <= i < j < |resourceNames| ==>
                              UrlName(resourceNames[i]) != UrlName(resourceNames[j])
    ensures r.Success? ==> API_ROUTE in r.value && r.value[API_ROUTE] == ApiRoute
    ensures r.Success? ==> forall i :: 0 <= i < |resourceNames| ==>
                              && ROUTE_PREFIX + UrlName(resourceNames[i]) in r.value
                              && r.value[ROUTE_PREFIX + UrlName(resourceNames[i])] == ResourceEntry(resourceNames[i]).1
    ensures r.Success? ==> forall path :: path in r.value ==>
                              path == API_ROUTE || exists i :: 0 <= i < |resourceNames| && path == ROUTE_PREFIX + UrlName(resourceNames[i])
    ensures r.Failure? ==> exists i :: 0 <= i < |resourceNames| && r.error == ROUTE_PREFIX + UrlName(resourceNames[i])
  {
    var entries := ResourceEntries(resourceNames);
    ApiRouteIsNotAResource(resourceNames);
    DistinctRoutesIff(resourceNames);
    Dictionary.AddAll(map[API_ROUTE := ApiRoute], entries)
  }

  /** "/cookie_clicker/" and "/cookie_clicker_dev/api" differ at their 16th
      character, so no resource route is the API route. */
  lemma ApiRouteIsNotAResource(names: seq<string>)
    ensures API_ROUTE !in Dictionary.KeysOf(ResourceEntries(names))
  {
    var entries := ResourceEntries(names);
    forall i | 0 <= i < |entries| ensures entries[i].0 != API_ROUTE {
      assert entries[i].0[15] == ROUTE_PREFIX[15];
    }
  }

  /** Two resource routes collide exactly when their URL names do. */
  lemma DistinctRoutesIff(names: seq<string>)
    ensures Dictionary.DistinctKeys(ResourceEntries(names)) <==>
            forall i, j :: 0 <= i < j < |names| ==> UrlName(names[i]) != UrlName(names[j])
  {
    var entries := ResourceEntries(names);
    forall i, j | 0 <= i < j < |names|
      ensures (entries[i].0 == entries[j].0) <==> (UrlName(names[i]) == UrlName(names[j]))
    {
      PrefixCancels(ROUTE_PREFIX, UrlName(names[i]), UrlName(names[j]));
    }
  }

  lemma PrefixCancels(p: string, a: string, b: string)
    ensures p + a == p + b <==> a == b
  {
    if p + a == p + b {
      assert a == (p + a)[|p|..];
      assert b == (p + b)[|p|..];
    }
  }

  /** The text after the last '.' of a path, or the whole path when it has
      no '.': the file extension the serializer is chosen by. */
  function Extension(path: string): (e: string)
    ensures |e| <= |path| && path == path[..|path| - |e|] + e
    ensures forall i :: 0 <= i < |e| ==> e[i] != '.'
    ensures |e| < |path| ==> path[|path| - |e| - 1] == '.'
  {
    var dot := LastIndexOf(path, '.');
    AfterLast(path, '.', dot + 1);
    path[dot + 1..]
  }

  /** Splitting a string after the last occurrence of `c` leaves a suffix
      free of `c`. */
  lemma AfterLast(s: string, c: char, from: nat)
    requires from == LastIndexOf(s, c) + 1
    ensures from <= |s| && s == s[..from] + s[from..]
    ensures forall i :: 0 <= i < |s| - from ==> s[from..][i] != c
  {
    forall i | 0 <= i < |s| - from ensures s[from..][i] != c {
      assert s[from..][i] == s[from + i];
    }
  }

  /** `RespondAsync`: a known path is answered with its route and the
      serializer named by its extension; an unknown path is left unanswered.
      Both succeed. */
  function RespondAsync(routes: map<string, Route>, path: string): (r: Response)
    ensures r.NoResponse? <==> path !in routes
    ensures r.Respond? ==> r.route == routes[path] && r.extension == Extension(path)
  {
    if path in routes then Respond(routes[path], Extension(path)) else NoResponse
  }

  /** The API route is always served, with the whole path as its extension
      since it holds no '.'. */
  lemma ServesApiRoute(names: seq<string>)
    requires BuildRoutes(names).Success?
    ensures RespondAsync(BuildRoutes(names).value, API_ROUTE) == Respond(ApiRoute, API_ROUTE)
  {
    ApiRouteHasNoExtension();
  }

  /** The API route holds no '.', so its extension is the whole path. */
  lemma ApiRouteHasNoExtension()
    ensures Extension(API_ROUTE) == API_ROUTE
  {
    assert forall i :: 0 <= i < |API_ROUTE| ==> API_ROUTE[i] != '.';
    NoOccurrence(API_ROUTE, '.');
  }

  lemma {:induction false} NoOccurrence(s: string, c: char)
    requires forall i :: 0 <= i < |s| ==> s[i] != c
    ensures LastIndexOf(s, c) == -1
    decreases |s|
  {
    if s != [] {
      NoOccurrence(s[..|s| - 1], c);
    }
  }

  /** Every resource whose name has a '.' after the namespace is served at
      its URL, with the serializer for the resource's own extension. */
  lemma ServesEveryResource(names: seq<string>, i: nat)
    requires BuildRoutes(names).Success?
    requires i < |names| && LastIndexOf(names[i], '.') >= |NAMESPACE_PREFIX|
    ensures var r := RespondAsync(BuildRoutes(names).value, ROUTE_PREFIX + UrlName(names[i]));
            && r.Respond? && r.route.ResourceRoute? && r.route.resource == names[i]
            && r.extension == names[i][LastIndexOf(names[i], '.') + 1..]
  {
    var routes := BuildRoutes(names).value;
    var path := ROUTE_PREFIX + UrlName(names[i]);
    RouteOfResource(names, i);
    ServesResourceUnder(routes, ROUTE_PREFIX, names[i]);
    assert RespondAsync(routes, path) == Respond(routes[path], names[i][LastIndexOf(names[i], '.') + 1..]);
  }

  /** A built table maps each resource's route to that resource. */
  lemma RouteOfResource(names: seq<string>, i: nat)
    requires BuildRoutes(names).Success? && i < |names|
    ensures var routes := BuildRoutes(names).value;
            && ROUTE_PREFIX + UrlName(names[i]) in routes
            && routes[ROUTE_PREFIX + UrlName(names[i])] == ResourceRoute(names[i], ResourceEntry(names[i]).1.markdown)
  {
  }

  /** Under any prefix, a path routed to a resource is answered with that
      resource and the resource name's extension. */
  lemma ServesResourceUnder(routes: map<string, Route>, p: string, name: string)
    requires LastIndexOf(name, '.') >= |NAMESPACE_PREFIX|
    requires p + UrlName(name) in routes
    requires routes[p + UrlName(name)].ResourceRoute? && routes[p + UrlName(name)].resource == name
    ensures RespondAsync(routes, p + UrlName(name))
            == Respond(routes[p + UrlName(name)], name[LastIndexOf(name, '.') + 1..])
  {
    ExtensionOfResourceRoute(p, name);
  }

  /** The extension of a resource's route, under any prefix, is the
      resource's own extension. */
  lemma ExtensionOfResourceRoute(p: string, name: string)
    requires LastIndexOf(name, '.') >= |NAMESPACE_PREFIX|
    ensures Extension(p + UrlName(name)) == name[LastIndexOf(name, '.') + 1..]
  {
    UrlNameKeepsExtension(name);
    ExtensionAfterPrefix(p, UrlName(name));
  }

  /** Whatever precedes a string that holds a '.' does not change its extension. */
  lemma ExtensionAfterPrefix(p: string, s: string)
    requires LastIndexOf(s, '.') >= 0
    ensures Extension(p + s) == s[LastIndexOf(s, '.') + 1..]
  {
    var k := LastIndexOf(s, '.');
    LastAfterPrefix(p, s, '.');
    SuffixOfConcat(p, s, k + 1);
  }

  /** The last occurrence in `p + s` of a character `s` holds is the last
      one in `s`. */
  lemma LastAfterPrefix(p: string, s: string, c: char)
    requires LastIndexOf(s, c) >= 0
    ensures LastIndexOf(p + s, c) == |p| + LastIndexOf(s, c)
  {
    var path := p + s;
    var k := LastIndexOf(s, c);
    forall j | |p| + k < j < |path| ensures path[j] != c {
      assert path[j] == s[j - |p|];
    }
    LastIndexOfIs(path, c, |p| + k);
  }

  lemma SuffixOfConcat(p: string, s: string, m: nat)
    requires m <= |s|
    ensures (p + s)[|p| + m..] == s[m..]
  {
  }
}
