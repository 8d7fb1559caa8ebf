/** The decisions of the resource proxy endpoint (internal/api/resource_proxy.go):
    which requests are refused, which upstream answers become a 502, the
    Content-Type passed on (or inferred from the URL) and the Cache-Control
    chosen for it. URL parsing and the HTTP fetch are inputs. */
module ResourceProxy {
  import opened Results
  import opened Strings

  const OctetStream: string := "application/octet-stream"

  /** The cases of `inferContentType`, in the order they are tried: an
      extension and the type it gives. */
  const Cases: seq<(string, string)> := [
    (".jpg", "image/jpeg"), (".jpeg", "image/jpeg"), (".png", "image/png"),
    (".gif", "image/gif"), (".webp", "image/webp"), (".svg", "image/svg+xml"),
    (".json", "application/json"), (".xml", "application/xml"),
    (".html", "text/html"), (".htm", "text/html"), (".css", "text/css"),
    (".js", "application/javascript")]

  /** Each type a case gives is a bare MIME type. */
  predicate CleanTypes(cases: seq<(string, string)>) {
    forall k :: 0 <= k < |cases| ==> cases[k].1 != "" && ';' !in cases[k].1
  }

  /** The type of the first case whose extension `u` ends with. */
  function FirstMatch(u: string, cases: seq<(string, string)>): (t: string)
    ensures CleanTypes(cases) ==> t != "" && ';' !in t
  {
    if |cases| == 0 then OctetStream
    else if HasSuffix(u, cases[0].0) then cases[0].1
    else FirstMatch(u, cases[1..])
  }

  lemma CasesAreClean()
    ensures CleanTypes(Cases)
  {
  }

  /** `inferContentType`: the first extension case that the lower-cased
      URL ends with decides; anything else is `application/octet-stream`.
      The whole URL is tested, so a query string hides the extension. */
  function InferContentType(url: string): (t: string)
    ensures t != "" && ';' !in t
  {
    CasesAreClean();
    FirstMatch(ToLower(url), Cases)
  }

  /** The first case that matches decides. */
  lemma {:induction false} FirstMatchAt(u: string, cases: seq<(string, string)>, k: nat)
    requires k < |cases| && HasSuffix(u, cases[k].0)
    requires forall j :: 0 <= j < k ==> !HasSuffix(u, cases[j].0)
    ensures FirstMatch(u, cases) == cases[k].1
    decreases k
  {
    if k > 0 {
      assert !HasSuffix(u, cases[0].0);
      FirstMatchAt(u, cases[1..], k - 1);
    }
  }

  /** With no case matching, the answer is an octet stream. */
  lemma {:induction false} NoMatch(u: string, cases: seq<(string, string)>)
    requires forall j :: 0 <= j < |cases| ==> !HasSuffix(u, cases[j].0)
    ensures FirstMatch(u, cases) == OctetStream
    decreases |cases|
  {
    if |cases| > 0 {
      assert !HasSuffix(u, cases[0].0);
      NoMatch(u, cases[1..]);
    }
  }

  /** The last three characters of a string (all of it when shorter). */
  function Tail(s: string): string {
    if |s| >= 3 then s[|s| - 3..] else s
  }

  /** A string ends with the tail and the last character of each suffix. */
  lemma SuffixSharesTail(u: string)
    ensures forall p :: HasSuffix(u, p) && |p| >= 3 ==> Tail(p) == Tail(u)
    ensures forall p :: HasSuffix(u, p) && |p| >= 1 ==> p[|p| - 1] == u[|u| - 1]
  {
    forall p | HasSuffix(u, p) && |p| >= 3
      ensures Tail(p) == Tail(u)
    {
      assert u[|u| - |p|..][|p| - 3..] == u[|u| - 3..];
    }
    forall p | HasSuffix(u, p) && |p| >= 1
      ensures p[|p| - 1] == u[|u| - 1]
    {
      assert u[|u| - |p|..][|p| - 1] == u[|u| - 1];
    }
  }

  /** Each extension is at least three characters long and ends in a
      lower-case letter. */
  lemma CasesEndInLetters()
    ensures forall k :: 0 <= k < |Cases| ==> |Cases[k].0| >= 3 && IsLowerAscii(Cases[k].0[|Cases[k].0| - 1])
  {
  }

  /** No two extensions share their last three characters. */
  lemma CasesDiffer()
    ensures forall i, j :: 0 <= i < j < |Cases| ==> Tail(Cases[i].0) != Tail(Cases[j].0)
  {
    var tails := ["jpg", "peg", "png", "gif", "ebp", "svg", "son", "xml", "tml", "htm", "css", ".js"];
    assert forall k :: 0 <= k < |Cases| ==> Tail(Cases[k].0) == tails[k];
  }

  /** When the extensions differ in their last three characters, a string
      ending in one of them is typed by that one. */
  lemma FirstMatchOfDistinct(u: string, cases: seq<(string, string)>, k: nat)
    requires k < |cases| && HasSuffix(u, cases[k].0)
    requires forall j :: 0 <= j < |cases| ==> |cases[j].0| >= 3
    requires forall i, j :: 0 <= i < j < |cases| ==> Tail(cases[i].0) != Tail(cases[j].0)
    ensures FirstMatch(u, cases) == cases[k].1
  {
    SuffixSharesTail(u);
    forall j | 0 <= j < k
      ensures !HasSuffix(u, cases[j].0)
    {
      assert Tail(cases[j].0) != Tail(cases[k].0);
    }
    FirstMatchAt(u, cases, k);
  }

  /** A string whose last character is not a lower-case letter ends with
      none of the extensions. */
  lemma NoMatchOfLetters(u: string, cases: seq<(string, string)>)
    requires |u| > 0 && !IsLowerAscii(u[|u| - 1])
    requires forall j :: 0 <= j < |cases| ==> |cases[j].0| >= 1 && IsLowerAscii(cases[j].0[|cases[j].0| - 1])
    ensures FirstMatch(u, cases) == OctetStream
  {
    SuffixSharesTail(u);
    NoMatch(u, cases);
  }

  /** A URL ending in a known extension, written in any case, gets that
      extension's type, whatever comes before it: no earlier case can also
      match. */
  lemma InferFromExtension(stem: string, k: nat, written: string)
    requires k < |Cases| && ToLower(written) == Cases[k].0
    ensures InferContentType(stem + written) == Cases[k].1
  {
    var ext := Cases[k].0;
    var u := ToLower(stem + written);
    ToLowerConcat(stem, written);
    assert u[|u| - |ext|..] == ext;
    CasesEndInLetters();
    CasesDiffer();
    FirstMatchOfDistinct(u, Cases, k);
  }

  /** Every known extension ends in a letter, so a URL that does not (a query
      string, a trailing '/') is an octet stream. */
  lemma UnknownEndingIsOctetStream(url: string)
    requires |url| > 0 && !IsLetter(url[|url| - 1])
    ensures InferContentType(url) == OctetStream
  {
    var u := ToLower(url);
    assert u[|u| - 1] == url[|url| - 1];
    CasesEndInLetters();
    NoMatchOfLetters(u, Cases);
  }

  // ---------------------------------------------------------------------------
  // The handler's decisions
  // ---------------------------------------------------------------------------

  /** What the upstream fetch gave: a transport error, or a status and the
      response's Content-Type header ("" when absent). */
  datatype Upstream = FetchFailed | Reply(status: int, contentType: string)

  /** The handler's answer: an error status with its message, or a proxied
      body with the two headers the handler sets. */
  datatype Outcome = Refused(code: int, message: string) | Proxied(contentType: string, cacheControl: string)

  const DayCache: string := "public, max-age=86400"
  const HourCache: string := "public, max-age=3600"

  /** The upstream Content-Type with any parameters cut off: the part before
      the first ';', trimmed. A value without ';' is kept as it is. */
  function CleanContentType(header: string): (t: string)
    ensures ';' !in t
    ensures ';' !in header ==> t == header
  {
    if ';' in header then
      var first := Split(header, ';')[0];
      assert first in Split(header, ';');
      var t := TrimSpace(first);
      assert forall c :: c in t ==> c in first by {
        var left := TrimLeftWhile(first, IsSpace);
        forall c | c in t ensures c in first {
          var k :| 0 <= k < |t| && t[k] == c;
          assert left[k] == c;
          assert first[|first| - |left| + k] == c;
        }
      }
      t
    else header
  }

  /** Longer caching for images, one hour for everything else. */
  function CacheControlFor(contentType: string): (c: string)
    ensures c == DayCache <==> HasPrefix(contentType, "image/")
    ensures c == DayCache || c == HourCache
  {
    if HasPrefix(contentType, "image/") then DayCache
    else if HasPrefix(contentType, "application/json") then HourCache
    else HourCache
  }

  /** `handleProxyResource`. `scheme` is the scheme `url.Parse` finds, `None`
      when it fails to parse. */
  function ProxyResource(url: string, scheme: Option<string>, upstream: Upstream): (r: Outcome)
    ensures url == "" ==> r == Refused(400, "Missing 'url' parameter")
    ensures url != "" && scheme.None? ==> r == Refused(400, "Invalid URL")
    ensures url != "" && scheme.Some? && scheme.value != "http" && scheme.value != "https" ==>
      r == Refused(400, "Only http and https URLs are allowed")
    ensures url != "" && scheme.Some? && (scheme.value == "http" || scheme.value == "https") ==>
      (upstream.FetchFailed? ==> r == Refused(502, "Failed to fetch resource"))
      && (upstream.Reply? && upstream.status != 200 ==> r == Refused(502, "Resource server returned error"))
    ensures r.Proxied? <==> url != "" && scheme.Some? && (scheme.value == "http" || scheme.value == "https")
                            && upstream.Reply? && upstream.status == 200
    ensures r.Refused? && r.code != 400 ==> r.code == 502
    ensures r.Proxied? ==> r.contentType != "" && ';' !in r.contentType
    ensures r.Proxied? ==> r.cacheControl == CacheControlFor(r.contentType)
  {
    if url == "" then Refused(400, "Missing 'url' parameter")
    else if scheme.None? then Refused(400, "Invalid URL")
    else if scheme.value != "http" && scheme.value != "https" then Refused(400, "Only http and https URLs are allowed")
    else if upstream.FetchFailed? then Refused(502, "Failed to fetch resource")
    else if upstream.status != 200 then Refused(502, "Resource server returned error")
    else
      var cleaned := CleanContentType(upstream.contentType);
      var contentType := if cleaned == "" then InferContentType(url) else cleaned;
      Proxied(contentType, CacheControlFor(contentType))
  }

  /** An upstream answer without a Content-Type is typed from the URL. */
  lemma MissingTypeInferred(url: string, scheme: string)
    requires url != "" && (scheme == "http" || scheme == "https")
    ensures ProxyResource(url, Some(scheme), Reply(200, "")) == Proxied(InferContentType(url), CacheControlFor(InferContentType(url)))
  {
  }

  /** A charset parameter is dropped before the type is passed on. */
  lemma CharsetDropped(url: string, mime: string, params: string)
    requires url != "" && mime != "" && ';' !in mime
    requires |mime| > 0 && !IsSpace(mime[0]) && !IsSpace(mime[|mime| - 1])
    ensures ProxyResource(url, Some("https"), Reply(200, mime + ";" + params)).contentType == mime
  {
    var h := mime + ";" + params;
    assert h == mime + [';'] + params;
    IndexOfAfter(mime, ';', params);
    assert h[..|mime|] == mime;
    assert TrimLeftWhile(mime, IsSpace) == mime;
    assert TrimRightWhile(mime, IsSpace) == mime;
  }
}
