# Static-site worker router, modelled in Dafny

The site is served by a Cloudflare Worker whose `fetch` handler maps a request
pathname to an asset of the deployed site and answers with that asset, a
`Content-Type`, and sometimes a `Cache-Control` directive. This project models
that handler and its content-type lookup as pure functions over strings and
proves what they promise.

- `ContentTypes.dfy` (module `ContentTypes`) models `getContentType`. `SplitOnDot`
  is `path.split('.')`. The last piece, which `pop()` takes, is proved to be the
  `Extension`: the unique dot-free suffix that is either the whole path or
  directly follows a `'.'`. `Lower` is the lower-casing. `ContentType` looks the
  lower-cased extension up in the fixed eleven-entry table `MimeTypes` (through
  `MimeType`) and falls back to `application/octet-stream`. `ContentType` is written with
  `Extension` rather than with the split; `SplitPopIsExtension` shows the two
  agree.
- `Router.dfy` (module `Router`) models `fetch`. The asset store is a
  parameter `Store = map<string, seq<byte>>`; a key the map lacks is an asset
  the store cannot deliver. `Route(pathname, store)` yields an `Outcome`:
  - `Respond(response)`: the status, the `Content-Type` and `Cache-Control`
    the handler sets (`None` when it sets none), and the body.
  - `Fail(key)`: the handler throws because the asset `key` was missing.

The handler treats a missing asset in two different ways, and the model keeps
them apart:

- The pages `/`, `/info`, `/info.html`, `/contact` and `/contact.html` read
  `index.html`, `info.html` or `contact.html` outside the handler's `try`. A
  missing page is therefore a failure that escapes the handler (`Fail`), not a
  404.
- Every other pathname drops its first character to form the key, and reads it
  inside the `try`. A missing asset there becomes 404 with the body
  `Not Found` and no headers. A found one gets its extension's type and
  `public, max-age=3600`. This includes HTML reached this way: `/index.html`
  is cached, while `/` is not.

Only the generic branch turns a miss into a 404. A missing page escapes as a
failure, and `FailsOnlyOnMissingPage` states exactly when.

## Model

| member | source | states |
|---|---|---|
| `ContentTypes.SplitOnDot` | worker.js:48 | `split('.')` yields at least one piece |
| `ContentTypes.SplitPiecesDotFree` | worker.js:48 | no piece of a split holds a `'.'` |
| `ContentTypes.SplitJoin` | worker.js:48 | joining the pieces of a split with `'.'` gives back the string that was split |
| `ContentTypes.SplitLast` | worker.js:48 | a split yields one piece exactly when the string has no `'.'`; the last piece is a dot-free suffix that is the whole string or follows a `'.'` |
| `ContentTypes.Extension` | worker.js:48 | the extension is a dot-free suffix of the path that is the whole path or directly follows a `'.'`; a path without a dot is its own extension |
| `ContentTypes.ExtensionUnique` | worker.js:48 | at most one string has the extension property for a given path |
| `ContentTypes.SplitPopIsExtension` | worker.js:48 | the last piece of `path.split('.')`, which `pop()` takes, is the extension of the path |
| `ContentTypes.LowerIdempotent` | worker.js:48 | lower-casing leaves no upper-case ASCII letter, and lower-casing twice equals lower-casing once |
| `ContentTypes.LowerKeepsDots` | worker.js:48 | lower-casing keeps every `'.'` in place and creates none |
| `ContentTypes.ExtensionOfLower` | worker.js:48 | the extension of the lower-cased path is the lower-cased extension |
| `ContentTypes.ExtensionAfterDot` | worker.js:48 | for a dot-free `ext`, the extension of `base + "." + ext` is `ext` whatever `base` holds |
| `ContentTypes.Lower` | worker.js:48 | no contract of its own: `LowerIdempotent`, `LowerKeepsDots` and `ExtensionOfLower` state what lower-casing does to the path and its extension |
| `ContentTypes.MimeType` | worker.js:50-64 | no contract of its own: `ContentTypeRange`, `ContentTypeOfListed` and `ContentTypeOfUnlisted` state the table lookup and its fallback |
| `ContentTypes.ContentType` | worker.js:47-65 | no contract of its own: `ContentTypeRange`, `ContentTypeOfListed`, `ContentTypeOfUnlisted`, `ContentTypeOfDotless` and `ContentTypeCaseInsensitive` state what `getContentType` answers |
| `ContentTypes.ContentTypeRange` | worker.js:47-65 | the content type is `application/octet-stream` exactly when the lower-cased extension is not a table key; any other answer is one of the table's types |
| `ContentTypes.ContentTypeCaseInsensitive` | worker.js:48 | two paths that are equal up to ASCII case get the same content type |
| `ContentTypes.ContentTypeOfListed` | worker.js:48-64 | a path whose extension is a table key, in any case, gets that key's type |
| `ContentTypes.ContentTypeOfUnlisted` | worker.js:48-64 | a path whose extension is not a table key, in any case, gets `application/octet-stream` |
| `ContentTypes.ContentTypeOfDotless` | worker.js:48-64 | a path with no `'.'` is looked up whole, so a bare `html` is `text/html` |
| `ContentTypes.JpegSpellings` | worker.js:54-55 | `.jpg` and `.jpeg` both give `image/jpeg` |
| `ContentTypes.UpperCasePng` | worker.js:48-57 | `.PNG` and `.png` both give `image/png` |
| `ContentTypes.OnlyLastExtensionCounts` | worker.js:48-64 | `x.html.gz` is `application/octet-stream`: only the last extension counts |
| `ContentTypes.IndexPageType` | worker.js:48-64 | `index.html` is `text/html` |
| `ContentTypes.StylesheetType` | worker.js:48-64 | `style.css` is `text/css` |
| `ContentTypes.GalleryImageType` | worker.js:48-64 | `images/portfolio-01.webp` is `image/webp` |
| `Router.AssetKey` | worker.js:27 | the generic key is the pathname with its first character removed (empty for an empty pathname) |
| `Router.LookupKey` | worker.js:7-27 | `/` reads `index.html`, `/info` and `/info.html` read `info.html`, `/contact` and `/contact.html` read `contact.html`; any other non-empty pathname reads the key that, with the first character put back, is the pathname, and the empty pathname reads the empty key |
| `Router.ServePage` | worker.js:8-23 | a page fails, naming its key, exactly when its asset is missing; otherwise it is a 200 with `text/html`, no cache directive and the asset as body |
| `Router.ServeStatic` | worker.js:27-41 | the generic branch always responds: 200 exactly when the key is found, then with the key's content type, the one-hour directive and the asset as body; otherwise the 404 |
| `Router.Route` | worker.js:3-43 | a page serves its asset as `text/html` with no cache directive or fails when the asset is missing; any other pathname serves its key with its content type and the one-hour directive, or the 404 |
| `Router.FailsOnlyOnMissingPage` | worker.js:7-42 | the handler fails if and only if the pathname is one of the five page paths and that page's asset is missing |
| `Router.ResponseIsFoundOrNotFound` | worker.js:7-42 | every response is either a 200 whose body is the looked-up asset or the 404 for a missing key |
| `Router.DependsOnlyOnLookupKey` | worker.js:7-42 | two stores that agree on the single key looked up give the same outcome |
| `Router.AliasesAgree` | worker.js:14-24 | `/info` and `/info.html` give the same outcome, and so do `/contact` and `/contact.html` |
| `Router.StaticAssetTyped` | worker.js:27-41 | off the page paths, a found `base.ext` gets the table type of its lower-cased extension and the one-hour directive; a missing one gets the 404 |
| `Router.RootAndIndexHtml` | worker.js:7-41 | `/` and `/index.html` serve the same bytes as `text/html`; only `/index.html` carries the cache directive, and only `/` fails, rather than answering 404, when `index.html` is missing |
| `Router.GalleryImageRequest` | worker.js:27-38 | a deployed `images/portfolio-01.webp` is a 200 with `image/webp`, the one-hour directive and its bytes as body |
| `Router.StylesheetRequest` | worker.js:27-38 | a deployed `style.css` is a 200 with `text/css`, the one-hour directive and its bytes as body |
| `Router.UnknownFileRequest` | worker.js:27-41 | a missing `does-not-exist.xyz` is the 404 |

## Left out

- URL parsing (`new URL(request.url)`, worker.js:4) is not modelled: the
  pathname is an input, already extracted (and still percent-encoded) as the URL parser
  gives it. The request method, query and headers play no part.
- `getAsset` (worker.js:68-71) is a placeholder that the deployment tool
  replaces. The store is a map parameter. Any other error the real store
  could raise is modelled as a missing key.
- `async`/`await` and the runtime's `Response` object are not modelled. The
  response is a plain datatype. Headers the runtime adds on its own, such as
  the `text/plain` type of a string body, are not part of it.
- `Fail` says only which key was missing. What the runtime answers to a
  request whose handler throws is not part of this model.
- The `types` table is a finite map. In the source it is a plain object, so an
  extension such as `constructor` or `__proto__` finds an inherited property
  and returns a non-string value instead of the fallback. The model gives the
  fallback for every extension that is not one of the eleven keys.
- `toLowerCase` is modelled as ASCII lower-casing. Unicode case mapping is not
  modelled. For this table the two give the same lookup: the only non-ASCII
  character that lower-cases to a single ASCII letter is the Kelvin sign, which
  gives `k`, and no table key contains `k`.
- script.js (the front-end animation, scrolling and form glue) is not part of
  this model. It has no input/output contract.
