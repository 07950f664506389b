/** The extension-based MIME lookup of the static-site worker (getContentType):
    take the text after the last '.', lower-case it, look it up in a fixed table,
    and fall back to a generic binary type. */
module ContentTypes {

  /** Fallback for every extension the table does not list. */
  const OctetStream := "application/octet-stream"

  /** The fixed extension table; every key is already lower case. */
  const MimeTypes: map<string, string> := map[
    "html" := "text/html",
    "css" := "text/css",
    "js" := "application/javascript",
    "jpg" := "image/jpeg",
    "jpeg" := "image/jpeg",
    "png" := "image/png",
    "webp" := "image/webp",
    "svg" := "image/svg+xml",
    "ico" := "image/x-icon",
    "txt" := "text/plain",
    "json" := "application/json"
  ]

  // ---------------------------------------------------------------------------
  // ASCII lower-casing

  function LowerChar(c: char): (d: char)
  {
    if 'A' <= c <= 'Z' then (c as int + 32) as char else c
  }

  /** Lower-cases the ASCII letters of `s` and keeps every other character. */
  function Lower(s: string): (r: string)
  {
    seq(|s|, i requires 0 <= i < |s| => LowerChar(s[i]))
  }

  /** Lower-casing leaves no upper-case ASCII letter behind, and doing it twice
      is doing it once. */
  lemma LowerIdempotent(s: string)
    ensures forall i :: 0 <= i < |s| ==> !('A' <= Lower(s)[i] <= 'Z')
    ensures Lower(Lower(s)) == Lower(s)
  {
  }

  /** Lower-casing moves no dot: a position holds '.' after it exactly when it
      held '.' before. */
  lemma LowerKeepsDots(s: string)
    ensures forall i :: 0 <= i < |s| ==> (Lower(s)[i] == '.' <==> s[i] == '.')
    ensures '.' in Lower(s) <==> '.' in s
  {
  }

  // ---------------------------------------------------------------------------
  // The extension of a path

  /** `ext` is the extension of `path`: a dot-free suffix that is either the whole
      path or directly preceded by a '.'. */
  ghost predicate IsExtensionOf(ext: string, path: string)
  {
    && '.' !in ext
    && |ext| <= |path|
    && ext == path[|path| - |ext|..]
    && (|ext| == |path| || path[|path| - |ext| - 1] == '.')
  }

  /** At most one string is the extension of a given path. */
  lemma ExtensionUnique(a: string, b: string, path: string)
    requires IsExtensionOf(a, path) && IsExtensionOf(b, path)
    ensures a == b
  {
  }

  /** The text after the last '.' of `path`, or the whole path when it holds no
      '.'; empty when the path ends in '.'. */
  function Extension(path: string): (ext: string)
    ensures IsExtensionOf(ext, path)
    ensures '.' !in path ==> ext == path
  {
    if |path| == 0 then ""
    else if path[|path| - 1] == '.' then ""
    else
      var init := path[..|path| - 1];
      assert path == init + [path[|path| - 1]];
      Extension(init) + [path[|path| - 1]]
  }

  /** Joining the pieces back with '.' between them. */
  function JoinDots(parts: seq<string>): (s: string)
    requires |parts| >= 1
  {
    if |parts| == 1 then parts[0] else parts[0] + "." + JoinDots(parts[1..])
  }

  /** The pieces `s.split('.')` yields: never none. */
  function SplitOnDot(s: string): (parts: seq<string>)
    ensures |parts| >= 1
  {
    if |s| == 0 then [""]
    else
      var rest := SplitOnDot(s[1..]);
      if s[0] == '.' then [""] + rest
      else [[s[0]] + rest[0]] + rest[1..]
  }

  /** No piece of a split holds a '.'. */
  lemma {:induction false} SplitPiecesDotFree(s: string)
    ensures forall i :: 0 <= i < |SplitOnDot(s)| ==> '.' !in SplitOnDot(s)[i]
  {
    if |s| > 0 {
      var rest := SplitOnDot(s[1..]);
      SplitPiecesDotFree(s[1..]);
      if s[0] != '.' {
        var parts := SplitOnDot(s);
        assert parts[0] == [s[0]] + rest[0];
        forall i | 1 <= i < |parts| ensures '.' !in parts[i] {
          assert parts[i] == rest[i];
        }
      }
    }
  }

  /** Joining the pieces of a split with '.' gives back the string split. */
  lemma {:induction false} SplitJoin(s: string)
    ensures JoinDots(SplitOnDot(s)) == s
  {
    if |s| > 0 {
      var rest := SplitOnDot(s[1..]);
      SplitJoin(s[1..]);
      assert s == [s[0]] + s[1..];
      if s[0] != '.' && |rest| > 1 {
        assert JoinDots(rest) == rest[0] + "." + JoinDots(rest[1..]);
      }
    }
  }

  /** A split yields a single piece exactly when there is no '.' to split at,
      and its last piece is the extension of the string split. */
  lemma {:induction false} SplitLast(s: string)
    ensures var parts := SplitOnDot(s);
      && (|parts| == 1 <==> '.' !in s)
      && IsExtensionOf(parts[|parts| - 1], s)
  {
    if |s| > 0 {
      var tail := s[1..];
      var rest := SplitOnDot(tail);
      SplitLast(tail);
      assert s == [s[0]] + tail;
      var parts := SplitOnDot(s);
      if s[0] == '.' {
        assert parts == [""] + rest;
      } else if |rest| == 1 {
        assert parts == [[s[0]] + rest[0]];
        assert rest[0] == tail;
      } else {
        assert parts[|parts| - 1] == rest[|rest| - 1];
      }
    }
  }

  /** `path.split('.').pop()` is the extension of `path`: the last of the
      pieces of the split is `Extension(path)`. */
  lemma SplitPopIsExtension(path: string, parts: seq<string>)
    requires parts == SplitOnDot(path)
    ensures |parts| >= 1 && parts[|parts| - 1] == Extension(path)
  {
    SplitLast(path);
    ExtensionUnique(parts[|parts| - 1], Extension(path), path);
  }

  /** Lower-casing a path lower-cases its extension and nothing more. */
  lemma ExtensionOfLower(path: string)
    ensures Extension(Lower(path)) == Lower(Extension(path))
  {
    var ext, lp := Extension(path), Lower(path);
    LowerKeepsDots(path);
    LowerKeepsDots(ext);
    assert IsExtensionOf(Lower(ext), lp);
    ExtensionUnique(Lower(ext), Extension(lp), lp);
  }

  /** The extension of `base + "." + ext` is `ext`, whatever `base` holds. */
  lemma ExtensionAfterDot(base: string, ext: string)
    requires '.' !in ext
    ensures Extension(base + "." + ext) == ext
  {
    var path := base + "." + ext;
    assert ext == path[|path| - |ext|..];
    assert path[|path| - |ext| - 1] == '.';
    ExtensionUnique(ext, Extension(path), path);
  }

  // ---------------------------------------------------------------------------
  // The lookup

  /** The table entry for a lower-case extension, or the generic binary type. */
  function MimeType(ext: string): (t: string)
  {
    if ext in MimeTypes then MimeTypes[ext] else OctetStream
  }

  /** getContentType: the table type of the lower-cased extension. The worker
      takes the extension as `path.split('.').pop()`, which `SplitPopIsExtension`
      shows to be `Extension(path)`. */
  function ContentType(path: string): (t: string)
  {
    MimeType(Lower(Extension(path)))
  }

  /** The generic binary type comes back exactly when the lower-cased extension
      is not in the table; any other answer is one of the table's types. */
  lemma ContentTypeRange(path: string)
    ensures ContentType(path) == OctetStream <==> Lower(Extension(path)) !in MimeTypes
    ensures ContentType(path) != OctetStream ==> ContentType(path) in MimeTypes.Values
  {
  }

  /** The lookup ignores ASCII case: paths equal up to case get one type. */
  lemma {:induction false} ContentTypeCaseInsensitive(p: string, q: string)
    requires Lower(p) == Lower(q)
    ensures ContentType(p) == ContentType(q)
  {
    ExtensionOfLower(p);
    ExtensionOfLower(q);
    LowerIdempotent(Extension(p));
    LowerIdempotent(Extension(q));
  }

  /** A path whose extension is, up to case, a listed one gets that entry's type. */
  lemma ContentTypeOfListed(base: string, ext: string)
    requires '.' !in ext && Lower(ext) in MimeTypes
    ensures ContentType(base + "." + ext) == MimeTypes[Lower(ext)]
  {
    ExtensionAfterDot(base, ext);
  }

  /** A path whose extension is not listed, in any case, gets the generic type. */
  lemma ContentTypeOfUnlisted(base: string, ext: string)
    requires '.' !in ext && Lower(ext) !in MimeTypes
    ensures ContentType(base + "." + ext) == OctetStream
  {
    ExtensionAfterDot(base, ext);
  }

  /** A path without any '.' is looked up whole, so a bare "html" is HTML. */
  lemma ContentTypeOfDotless(path: string)
    requires '.' !in path
    ensures ContentType(path) == if Lower(path) in MimeTypes then MimeTypes[Lower(path)] else OctetStream
  {
  }

  /** The two spellings of JPEG share one type. */
  lemma JpegSpellings(base: string)
    ensures ContentType(base + ".jpg") == ContentType(base + ".jpeg") == "image/jpeg"
  {
    assert ContentType(base + ".jpg") == "image/jpeg" by {
      assert Lower("jpg") == "jpg";
      assert base + ".jpg" == base + "." + "jpg";
      ContentTypeOfListed(base, "jpg");
    }
    assert ContentType(base + ".jpeg") == "image/jpeg" by {
      assert Lower("jpeg") == "jpeg";
      assert base + ".jpeg" == base + "." + "jpeg";
      ContentTypeOfListed(base, "jpeg");
    }
  }

  /** An upper-case extension gets the same type as its lower-case spelling. */
  lemma UpperCasePng(base: string)
    ensures ContentType(base + ".PNG") == ContentType(base + ".png") == "image/png"
  {
    assert Lower("PNG") == "png" && Lower("png") == "png";
    assert base + ".PNG" == base + "." + "PNG";
    assert base + ".png" == base + "." + "png";
    ContentTypeOfListed(base, "PNG");
    ContentTypeOfListed(base, "png");
  }

  /** Only the text after the last '.' counts: a listed type earlier in the
      name does not help an unlisted last extension. */
  lemma OnlyLastExtensionCounts(base: string)
    ensures ContentType(base + ".html.gz") == OctetStream
  {
    assert Lower("gz") == "gz";
    assert base + ".html.gz" == (base + ".html") + "." + "gz";
    ContentTypeOfUnlisted(base + ".html", "gz");
  }

  /** The site's index page is HTML. */
  lemma IndexPageType()
    ensures ContentType("index.html") == "text/html"
  {
    assert Extension("index.html") == "html" && Lower("html") == "html";
  }

  /** The site's stylesheet is CSS. */
  lemma StylesheetType()
    ensures ContentType("style.css") == "text/css"
  {
    assert Extension("style.css") == "css" && Lower("css") == "css";
  }

  /** The site's gallery images are WebP. */
  lemma GalleryImageType()
    ensures ContentType("images/portfolio-01.webp") == "image/webp"
  {
    assert Extension("images/portfolio-01.webp") == "webp" && Lower("webp") == "webp";
  }
}
