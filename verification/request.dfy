/**
 The request's derived values: the path segments of the friendly URL, the
 parameter array (request variables followed by the path segments), the
 two-letter language, the old-browser test and the development-host test.
 The server variables they read are passed in as parameters.
 */
module Request {
  import opened PhpValue
  import opened Strings
  import opened Assoc

  /** The user-agent markers of obsolete browsers, in the order they are tried. */
  const OldBrowsers: seq<string> := ["MSIE 7", "MSIE 6"]

  // -------------------------------------------------------------- segments

  /**
   `getUrl` on the path of the request URI: its non-empty `/`-separated
   segments, which hold every other character of the path, in order.
   */
  function GetUrl(path: string): (r: seq<string>)
    ensures forall k :: 0 <= k < |r| ==> r[k] != "" && '/' !in r[k]
    ensures Concat(r) == Without(path, '/')
  {
    ExplodeJoin(path, '/');
    SegmentsCoverText(path, '/');
    Segments(path, '/')
  }

  /** A path without `/` is one segment, or none when it is empty. */
  lemma GetUrlOfSegment(a: string)
    requires '/' !in a
    ensures GetUrl(a) == if a == "" then [] else [a]
  {
    ExplodeWithout(a, '/');
    assert Explode(a, '/') == [a];
    assert [a][1..] == [];
    assert NonEmpty([a]) == if a == "" then [] else [a];
    assert Segments(a, '/') == NonEmpty([a]);
  }

  /**
   The path splits at its first `/`: the text before it is the first segment
   (dropped when empty) and the rest is split on its own. With
   `GetUrlOfSegment`, this fixes every segment boundary.
   */
  lemma GetUrlSplitsAtSlash(a: string, b: string)
    requires '/' !in a
    ensures GetUrl(a + "/" + b) == (if a == "" then [] else [a]) + GetUrl(b)
  {
    ExplodeAtFirst(a, '/', b);
    var pieces := [a] + Explode(b, '/');
    assert pieces[1..] == Explode(b, '/');
  }

  // ------------------------------------------------------------ parameters

  /**
   An array key: a string or an integer. PHP stores a canonical integer
   string such as `"5"` as the integer 5, so `Named` never holds one.
   */
  datatype Key = Named(name: string) | Index(i: int)

  /** The key `$a[] = ...` uses: one past the largest integer key, and at least 0. */
  function NextIndex(a: Assoc<Key, Value>): (n: int)
    ensures n >= 0
    ensures forall k :: 0 <= k < |a| && a[k].0.Index? ==> a[k].0.i < n
    ensures n == 0 || exists k :: 0 <= k < |a| && a[k].0 == Index(n - 1)
  {
    if |a| == 0 then 0
    else
      var rest := NextIndex(a[1..]);
      assert forall k :: 1 <= k < |a| ==> a[k] == a[1..][k - 1];
      if a[0].0.Index? && a[0].0.i + 1 > rest then a[0].0.i + 1 else rest
  }

  /**
   `getParameters`: the request variables, then each non-empty segment of the
   script path (with the application path removed) under the next integer
   keys, in order.
   */
  method GetParameters(request: Assoc<Key, Value>, scriptPath: string, appPath: string)
    returns (r: Assoc<Key, Value>)
    requires Keyed(request)
    ensures Keyed(r)
    ensures var segs := GetUrl(RemoveAll(scriptPath, appPath));
      && |r| == |request| + |segs|
      && r[..|request|] == request
      && forall k :: 0 <= k < |segs| ==> r[|request| + k] == (Index(NextIndex(request) + k), Str(segs[k]))
  {
    var segs := GetUrl(RemoveAll(scriptPath, appPath));
    var next := NextIndex(request);
    r := request;
    var i := 0;
    while i < |segs|
      invariant 0 <= i <= |segs|
      invariant |r| == |request| + i && r[..|request|] == request
      invariant forall k :: 0 <= k < i ==> r[|request| + k] == (Index(NextIndex(request) + k), Str(segs[k]))
      invariant next == NextIndex(request) + i
      invariant Keyed(r)
      invariant forall k :: 0 <= k < |r| && r[k].0.Index? ==> r[k].0.i < next
    {
      r := r + [(Index(next), Str(segs[i]))];
      next := next + 1;
      i := i + 1;
    }
  }

  // -------------------------------------------------------------- language

  /** `getShortLanguage`: the first two characters of the accepted language. */
  function ShortLanguage(acceptLanguage: string): (r: string)
    ensures |r| == if |acceptLanguage| < 2 then |acceptLanguage| else 2
    ensures r <= acceptLanguage
  {
    Prefix(acceptLanguage, 2)
  }

  /** Shortening twice is shortening once; `es-ES` gives `es`. */
  lemma ShortLanguageStable(acceptLanguage: string)
    ensures ShortLanguage(ShortLanguage(acceptLanguage)) == ShortLanguage(acceptLanguage)
    ensures ShortLanguage("es-ES") == "es"
  {
  }

  // ------------------------------------------------------------ old browser

  /**
   The test `strpos($ua, $marker) != 0` as written: PHP's `false` for "not
   found" is loosely equal to 0, and so is a match at position 0, so only a
   match after the first character counts.
   */
  predicate MarkerAfterStart(ua: string, marker: string) {
    var pos := match StrPos(ua, marker) case None => Bool(false) case Some(p) => Int(p);
    !LooseEq(pos, Int(0))
  }

  /** `isOldBrowser` as written: the markers are tried in order until one counts. */
  method IsOldBrowser(ua: string) returns (isOld: bool)
    ensures isOld <==> exists k :: 0 <= k < |OldBrowsers| && StrPos(ua, OldBrowsers[k]).Some? && StrPos(ua, OldBrowsers[k]).value > 0
  {
    isOld := false;
    var i := 0;
    while i < |OldBrowsers|
      invariant 0 <= i <= |OldBrowsers|
      invariant forall k :: 0 <= k < i ==> !MarkerAfterStart(ua, OldBrowsers[k])
      invariant !isOld
    {
      isOld := MarkerAfterStart(ua, OldBrowsers[i]);
      if isOld {
        break;
      }
      i := i + 1;
    }
  }

  /** The intended test: some marker occurs anywhere in the user agent. */
  predicate OldBrowserIntended(ua: string) {
    exists k :: 0 <= k < |OldBrowsers| && StrPos(ua, OldBrowsers[k]).Some?
  }

  /** The intended test holds exactly when a marker is contained in the user agent. */
  lemma OldBrowserIntendedIffContains(ua: string)
    ensures OldBrowserIntended(ua) <==> exists k :: 0 <= k < |OldBrowsers| && Contains(ua, OldBrowsers[k])
  {
    forall k | 0 <= k < |OldBrowsers|
      ensures StrPos(ua, OldBrowsers[k]).Some? <==> Contains(ua, OldBrowsers[k])
    {
      var m := OldBrowsers[k];
      if StrPos(ua, m).Some? {
        assert OccursAt(ua, m, StrPos(ua, m).value);
      }
    }
  }

  /**
   As written, a user agent that starts with a marker is not recognised: for
   `MSIE 6.0` the marker is found at position 0, which compares equal to 0.
   */
  lemma LeadingMarkerMissed()
    ensures StrPos("MSIE 6.0", "MSIE 6") == Some(0)
    ensures !MarkerAfterStart("MSIE 6.0", "MSIE 7") && !MarkerAfterStart("MSIE 6.0", "MSIE 6")
    ensures OldBrowserIntended("MSIE 6.0")
  {
    assert OccursAt("MSIE 6.0", "MSIE 6", 0);
    assert !OccursAt("MSIE 6.0", "MSIE 7", 0);
    assert !OccursAt("MSIE 6.0", "MSIE 7", 1) && !OccursAt("MSIE 6.0", "MSIE 7", 2);
    assert StrPos("MSIE 6.0", "MSIE 7") == None;
    assert StrPos("MSIE 6.0", OldBrowsers[1]).Some?;
  }

  // ------------------------------------------------------------ development

  /** `isDevelopment`: the host is `localhost` or does not start with `www`. */
  predicate IsDevelopment(serverName: string) {
    serverName == "localhost" || Prefix(serverName, 3) != "www"
  }

  /** The `localhost` test is subsumed: development means the host does not start with `www`. */
  lemma DevelopmentIffNotWww(serverName: string)
    ensures IsDevelopment(serverName) <==> !(|serverName| >= 3 && serverName[..3] == "www")
  {
    if serverName == "localhost" {
      assert serverName[..3] == "loc";
    }
  }
}
