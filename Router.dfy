/** The request router of the static-site worker (the `fetch` handler): the
    pathname picks an asset key, the asset store is asked for it, and the
    answer is a response with a content type, an optional cache directive and
    the asset's bytes, or a 404. */
module Router {
  import opened ContentTypes

  newtype byte = x: int | 0 <= x < 256

  /** The deployed assets, by key (a path without its leading '/'). A key that
      is absent is an asset the store cannot deliver. */
  type Store = map<string, seq<byte>>

  datatype Option<T> = None | Some(value: T)

  /** A response body: the bytes of an asset, or a text the handler writes. */
  datatype Body = Asset(bytes: seq<byte>) | Text(text: string)

  /** A response as the handler builds it. `None` for a header means the
      handler does not set it. */
  datatype Response = Response(
    status: int,
    contentType: Option<string>,
    cacheControl: Option<string>,
    body: Body)

  /** What `fetch` ends in: a response, or a failure that escapes the handler
      because the store could not deliver `key` outside the handler's `try`. */
  datatype Outcome = Respond(response: Response) | Fail(key: string)

  const HtmlType := "text/html"
  const PublicHourCache := "public, max-age=3600"

  /** The 404 answer of the generic branch: no headers set, a plain body. */
  const NotFound := Response(404, None, None, Text("Not Found"))

  /** The HTML pages the handler serves by name, with the asset each one reads. */
  const Pages: map<string, string> := map[
    "/" := "index.html",
    "/info" := "info.html",
    "/info.html" := "info.html",
    "/contact" := "contact.html",
    "/contact.html" := "contact.html"
  ]

  /** `pathname.slice(1)`: the pathname without its first character. */
  function AssetKey(pathname: string): (key: string)
    ensures |pathname| > 0 ==> pathname == [pathname[0]] + key
    ensures |pathname| == 0 ==> key == ""
  {
    if |pathname| == 0 then "" else pathname[1..]
  }

  /** An HTML page: read outside the `try`, so a missing asset escapes. */
  function ServePage(key: string, store: Store): (o: Outcome)
    ensures o.Fail? <==> key !in store
    ensures o.Fail? ==> o.key == key
    ensures o.Respond? ==>
      && o.response.status == 200
      && o.response.contentType == Some(HtmlType)
      && o.response.cacheControl.None?
      && o.response.body == Asset(store[key])
  {
    if key in store then Respond(Response(200, Some(HtmlType), None, Asset(store[key])))
    else Fail(key)
  }

  /** Any other asset: read inside the `try`, so a missing asset becomes 404. */
  function ServeStatic(key: string, store: Store): (o: Outcome)
    ensures o.Respond?
    ensures o.response.status == 200 <==> key in store
    ensures key in store ==>
      && o.response.contentType == Some(ContentType(key))
      && o.response.cacheControl == Some(PublicHourCache)
      && o.response.body == Asset(store[key])
    ensures key !in store ==> o.response == NotFound
  {
    if key in store then
      Respond(Response(200, Some(ContentType(key)), Some(PublicHourCache), Asset(store[key])))
    else Respond(NotFound)
  }

  /** The `fetch` handler. The HTML pages answer with `text/html` and no cache
      directive and fail outright when their asset is missing; every other
      pathname names its asset by dropping its first character, answers with the
      asset's content type and a one-hour public cache directive, and answers
      404 when the asset is missing. */
  function Route(pathname: string, store: Store): (o: Outcome)
    ensures pathname in Pages ==>
      var key := Pages[pathname];
      if key in store then o == Respond(Response(200, Some(HtmlType), None, Asset(store[key])))
      else o == Fail(key)
    ensures pathname !in Pages ==>
      var key := AssetKey(pathname);
      if key in store then
        o == Respond(Response(200, Some(ContentType(key)), Some(PublicHourCache), Asset(store[key])))
      else o == Respond(NotFound)
  {
    if pathname == "/" then ServePage("index.html", store)
    else if pathname == "/info" || pathname == "/info.html" then ServePage("info.html", store)
    else if pathname == "/contact" || pathname == "/contact.html" then ServePage("contact.html", store)
    else ServeStatic(AssetKey(pathname), store)
  }

  /** The one key the handler asks the store for. */
  function LookupKey(pathname: string): (key: string)
    ensures pathname in Pages ==> key in Pages.Values
    ensures pathname == "/" ==> key == "index.html"
    ensures pathname == "/info" || pathname == "/info.html" ==> key == "info.html"
    ensures pathname == "/contact" || pathname == "/contact.html" ==> key == "contact.html"
    ensures pathname !in Pages && |pathname| > 0 ==> pathname == [pathname[0]] + key
    ensures pathname == "" ==> key == ""
  {
    if pathname in Pages then Pages[pathname] else AssetKey(pathname)
  }

  /** The handler fails exactly when an HTML page's asset is missing; every
      other request, found or not, gets a response. */
  lemma FailsOnlyOnMissingPage(pathname: string, store: Store)
    ensures Route(pathname, store).Fail? <==> pathname in Pages && Pages[pathname] !in store
  {
  }

  /** Every response is 200 with the looked-up asset as its body, or the 404. */
  lemma ResponseIsFoundOrNotFound(pathname: string, store: Store)
    requires Route(pathname, store).Respond?
    ensures var r := Route(pathname, store).response;
      || (r.status == 200 && LookupKey(pathname) in store && r.body == Asset(store[LookupKey(pathname)]))
      || (r == NotFound && LookupKey(pathname) !in store)
  {
  }

  /** The handler reads one key and nothing else: two stores that agree on it
      give the same outcome. */
  lemma DependsOnlyOnLookupKey(pathname: string, s1: Store, s2: Store)
    requires LookupKey(pathname) in s1 <==> LookupKey(pathname) in s2
    requires LookupKey(pathname) in s1 ==> s1[LookupKey(pathname)] == s2[LookupKey(pathname)]
    ensures Route(pathname, s1) == Route(pathname, s2)
  {
  }

  /** `/info` and `/info.html` are one page, and so are `/contact` and
      `/contact.html`. */
  lemma AliasesAgree(store: Store)
    ensures Route("/info", store) == Route("/info.html", store)
    ensures Route("/contact", store) == Route("/contact.html", store)
  {
  }

  /** Outside the HTML pages, a found asset is served with the type its
      extension names, case aside, and the one-hour cache directive, whatever
      the type; a missing one is the 404. */
  lemma StaticAssetTyped(base: string, ext: string, store: Store)
    requires '.' !in ext
    requires "/" + base + "." + ext !in Pages
    ensures var key := base + "." + ext;
      && (key in store ==>
            Route("/" + base + "." + ext, store)
              == Respond(Response(200, Some(MimeType(Lower(ext))), Some(PublicHourCache), Asset(store[key]))))
      && (key !in store ==> Route("/" + base + "." + ext, store) == Respond(NotFound))
  {
    var key := base + "." + ext;
    assert "/" + base + "." + ext == "/" + key;
    ExtensionAfterDot(base, ext);
  }

  /** The root serves `index.html` as HTML without a cache directive, while
      `/index.html` reaches the same asset through the generic branch: same body
      and type, but with the cache directive, and a 404 rather than a failure
      when the asset is missing. */
  lemma RootAndIndexHtml(store: Store)
    ensures "index.html" in store ==>
      && Route("/", store) == Respond(Response(200, Some(HtmlType), None, Asset(store["index.html"])))
      && Route("/index.html", store) == Respond(Response(200, Some(HtmlType), Some(PublicHourCache), Asset(store["index.html"])))
    ensures "index.html" !in store ==>
      && Route("/", store) == Fail("index.html")
      && Route("/index.html", store) == Respond(NotFound)
  {
    IndexPageType();
    assert "/index.html" !in Pages;
    assert AssetKey("/index.html") == "index.html";
  }

  /** A deployed gallery image is served as WebP, with status 200 and the
      one-hour cache directive. */
  lemma GalleryImageRequest(store: Store)
    requires "images/portfolio-01.webp" in store
    ensures Route("/images/portfolio-01.webp", store)
      == Respond(Response(200, Some("image/webp"), Some(PublicHourCache), Asset(store["images/portfolio-01.webp"])))
  {
    GalleryImageType();
    assert "/images/portfolio-01.webp" !in Pages;
    assert AssetKey("/images/portfolio-01.webp") == "images/portfolio-01.webp";
  }

  /** A deployed stylesheet is served as CSS, with status 200 and the
      one-hour cache directive. */
  lemma StylesheetRequest(store: Store)
    requires "style.css" in store
    ensures Route("/style.css", store)
      == Respond(Response(200, Some("text/css"), Some(PublicHourCache), Asset(store["style.css"])))
  {
    StylesheetType();
    assert "/style.css" !in Pages;
    assert AssetKey("/style.css") == "style.css";
  }

  /** A file that was never deployed is the 404. */
  lemma UnknownFileRequest(store: Store)
    requires "does-not-exist.xyz" !in store
    ensures Route("/does-not-exist.xyz", store) == Respond(NotFound)
  {
    assert "/does-not-exist.xyz" !in Pages;
    assert AssetKey("/does-not-exist.xyz") == "does-not-exist.xyz";
  }
}
