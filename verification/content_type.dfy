/**
 * The content-type resolver (`ContentType`): a closed table of seven constants, each with a file
 * extension and a MIME type, and `fromFileName`, which looks up the lower-cased text after the
 * last `.` of a file name and falls back to `application/octet-stream`.
 */
module ContentTypes {
  import opened Wrappers
  import opened JavaText

  datatype ContentType = HTML | CSS | JS | PNG | JPG | ICO | OCTET_STREAM {

    /** The extension the constant is declared with. */
    function Extension(): string
    {
      match this
      case HTML => "html"
      case CSS => "css"
      case JS => "js"
      case PNG => "png"
      case JPG => "jpg"
      case ICO => "ico"
      case OCTET_STREAM => ""
    }

    /** `getMimeType()`. */
    function MimeType(): string
    {
      match this
      case HTML => "text/html"
      case CSS => "text/css"
      case JS => "application/javascript"
      case PNG => "image/png"
      case JPG => "image/jpeg"
      case ICO => "image/x-icon"
      case OCTET_STREAM => "application/octet-stream"
    }
  }

  /** `values()`: the constants in declaration order. */
  const Values: seq<ContentType> := [HTML, CSS, JS, PNG, JPG, ICO, OCTET_STREAM]

  /** The `for` loop over `values()`: the first constant whose extension equals `ext`. */
  function FirstWithExtension(types: seq<ContentType>, ext: string): (r: Option<ContentType>)
    ensures r.Some? ==> r.value in types && r.value.Extension() == ext
    ensures r.None? ==> forall t :: t in types ==> t.Extension() != ext
  {
    if |types| == 0 then None
    else if types[0].Extension() == ext then Some(types[0])
    else FirstWithExtension(types[1..], ext)
  }

  /** The constant for an already lower-cased extension, OCTET_STREAM when none declares it. */
  function ForExtension(ext: string): (r: ContentType)
    ensures r != OCTET_STREAM ==> r.Extension() == ext
  {
    match FirstWithExtension(Values, ext)
    case Some(t) => t
    case None => OCTET_STREAM
  }

  /** `fromFileName(fileName)`. */
  function FromFileName(fileName: string): (r: ContentType)
    ensures '.' !in fileName ==> r == OCTET_STREAM
  {
    var dot := LastIndexOf(fileName, '.');
    if dot == -1 then OCTET_STREAM else ForExtension(AsciiLower(fileName[dot + 1..]))
  }

  // ---------------------------------------------------------------------------
  // Properties
  // ---------------------------------------------------------------------------

  /** No two constants share an extension, so the table can be read in either direction. */
  lemma ExtensionsDistinct(t: ContentType, u: ContentType)
    ensures t.Extension() == u.Extension() ==> t == u
  {
  }

  /** The text after the last `.` of a file name, if it has one. */
  function ExtensionOf(fileName: string): Option<string>
  {
    if '.' !in fileName then None
    else Some(fileName[LastIndexOf(fileName, '.') + 1..])
  }

  /** Looking a constant's own extension up in `values()` finds that constant. */
  lemma LookupOwnExtension(t: ContentType)
    ensures ForExtension(t.Extension()) == t
  {
    assert t in Values;
    var r := FirstWithExtension(Values, t.Extension());
    if r.Some? {
      ExtensionsDistinct(t, r.value);
    }
  }

  /** The table read in reverse: a constant other than OCTET_STREAM is chosen exactly for its own extension. */
  lemma ForExtensionSpec(ext: string, t: ContentType)
    requires t != OCTET_STREAM
    ensures ForExtension(ext) == t <==> t.Extension() == ext
  {
    if t.Extension() == ext {
      LookupOwnExtension(t);
    }
  }

  /**
   * The resolver, read against the table: a constant other than OCTET_STREAM is chosen exactly
   * when the name has a `.` and the text after the last one, lower-cased, is that constant's
   * extension; every other name gets OCTET_STREAM.
   */
  lemma FromFileNameSpec(fileName: string, t: ContentType)
    requires t != OCTET_STREAM
    ensures FromFileName(fileName) == t <==>
      ExtensionOf(fileName).Some? && AsciiLower(ExtensionOf(fileName).value) == t.Extension()
  {
    if '.' in fileName {
      ForExtensionSpec(AsciiLower(ExtensionOf(fileName).value), t);
    }
  }

  /** In `base.ext` with no `.` in `ext`, the resolver looks at `ext` alone. */
  lemma AfterLastDot(base: string, ext: string)
    requires '.' !in ext
    ensures FromFileName(base + "." + ext) == ForExtension(AsciiLower(ext))
  {
    LastIndexOfBefore(base, '.', ext);
  }

  /** Extensions hold no `.` and are already lower case. */
  lemma ExtensionIsPlain(t: ContentType)
    ensures '.' !in t.Extension() && AsciiLower(t.Extension()) == t.Extension()
  {
    AsciiLowerFixes(t.Extension());
  }

  /** Every constant is found again from a file name carrying its extension. */
  lemma FromOwnExtension(base: string, t: ContentType)
    ensures FromFileName(base + "." + t.Extension()) == t
  {
    ExtensionIsPlain(t);
    AfterLastDot(base, t.Extension());
    LookupOwnExtension(t);
  }

  /** Only the text after the last `.` matters: what comes before it is irrelevant. */
  lemma OnlyLastExtensionMatters(base1: string, base2: string, ext: string)
    requires '.' !in ext
    ensures FromFileName(base1 + "." + ext) == FromFileName(base2 + "." + ext)
  {
    AfterLastDot(base1, ext);
    AfterLastDot(base2, ext);
  }

  /** Lower-casing does not move the last `.`. */
  lemma LastDotOfLower(s: string)
    ensures LastIndexOf(AsciiLower(s), '.') == LastIndexOf(s, '.')
  {
    AsciiLowerKeepsDots(s, 0);
    var dot := LastIndexOf(s, '.');
    if dot != -1 {
      LastIndexOfIs(AsciiLower(s), '.', dot);
    } else {
      assert '.' !in AsciiLower(s);
    }
  }

  /** The extension is compared without regard to ASCII case. */
  lemma CaseInsensitive(fileName: string)
    ensures FromFileName(AsciiLower(fileName)) == FromFileName(fileName)
  {
    LastDotOfLower(fileName);
    var dot := LastIndexOf(fileName, '.');
    if dot != -1 {
      AsciiLowerKeepsDots(fileName, dot + 1);
      AsciiLowerIdempotent(fileName[dot + 1..]);
    }
  }

  /** A name ending in `.` has the empty extension, which only OCTET_STREAM declares. */
  lemma TrailingDot(base: string)
    ensures FromFileName(base + ".") == OCTET_STREAM
  {
    FromOwnExtension(base, OCTET_STREAM);
    assert base + "." + OCTET_STREAM.Extension() == base + ".";
  }

  /** A character MIME types are written with. */
  predicate IsMimeChar(ch: char)
  {
    'a' <= ch <= 'z' || ch == '/' || ch == '-'
  }

  /** MIME types are written in lower-case ASCII letters, `/` and `-`. */
  lemma MimeTypeIsPlain(t: ContentType)
    ensures forall ch :: ch in t.MimeType() ==> IsMimeChar(ch)
  {
  }

  /** `a.tar.html` is HTML: the last extension wins. */
  lemma ExampleLastExtension()
    ensures FromFileName("a.tar.html") == HTML
  {
    FromOwnExtension("a.tar", HTML);
    assert "a.tar" + "." + HTML.Extension() == "a.tar.html";
  }

  /** `a.html.bak` is OCTET_STREAM: an earlier `.html` does not count. */
  lemma ExampleEarlierExtension()
    ensures FromFileName("a.html.bak") == OCTET_STREAM
  {
    assert "a.html" + "." + "bak" == "a.html.bak";
    AfterLastDot("a.html", "bak");
    BakIsUnknown();
  }

  /** No constant declares `bak`. */
  lemma BakIsUnknown()
    ensures ForExtension(AsciiLower("bak")) == OCTET_STREAM
  {
    AsciiLowerFixes("bak");
    assert FirstWithExtension(Values, "bak").None?;
  }

  /** `x.HTML` is HTML: upper case matches. */
  lemma ExampleUpperCase()
    ensures FromFileName("x.HTML") == HTML
  {
    assert "x" + "." + "HTML" == "x.HTML";
    AfterLastDot("x", "HTML");
    LowerHtml();
    LookupOwnExtension(HTML);
  }

  /** `index.html` is served as `text/html`. */
  lemma ExampleIndex()
    ensures FromFileName("index.html").MimeType() == "text/html"
  {
    FromOwnExtension("index", HTML);
    assert "index" + "." + HTML.Extension() == "index.html";
  }
}
