/**
 * `RequestHandler.run`: reads the request line, takes the request target, splits it into path
 * and query, and either creates a user (`/create`) or serves a file under the static root.
 * One exchange is a pure function from the request line, the file system and the user store to
 * the bytes written, the new user store and how `run` ended. The core handler and the older
 * one differ only in how the Content-Type of a served file is chosen.
 */
module RequestHandler {
  import opened Wrappers
  import opened JavaText
  import opened QueryStringParser
  import opened ContentTypes
  import opened JavaFile
  import opened HttpResponse

  /** `model.User`; a field is `None` where the constructor receives `null`. */
  datatype User = User(userId: Option<string>, password: Option<string>, name: Option<string>)

  /** What the file system holds at a path. */
  datatype Node = RegularFile(content: seq<byte>) | Directory

  /**
   * The file system, keyed by the path string a `java.io.File` keeps: a path exists exactly
   * when it is a key.
   */
  type FileSystem = map<string, Node>

  /** How `run` ends: normally, in its `catch (IOException)`, or with an exception escaping it. */
  datatype Ending = Returned | CaughtIo | Threw(error: Thrown)

  /** The outcome of one connection. */
  datatype Exchange = Exchange(written: seq<byte>, users: seq<User>, ending: Ending)

  const StaticRoot := "src" + "/" + "main" + "/" + "resources" + "/" + "static"
  const CreatePath := "/create"
  const LoginPath := "/login"
  const OctetStream := "application/octet-stream"

  /** Is `e` an `IOException`, which `run` catches? */
  predicate IsIOException(e: Thrown)
  {
    e.UnsupportedEncoding?
  }

  /** Where an exception raised inside the `try` of `run` ends up. */
  function Escape(e: Thrown): (r: Ending)
    ensures r == CaughtIo <==> IsIOException(e)
    ensures r != Returned
  {
    if IsIOException(e) then CaughtIo else Threw(e)
  }

  // ---------------------------------------------------------------------------
  // /create
  // ---------------------------------------------------------------------------

  /** `getFirst(params, key)`: the first value under `key`, or `null`. */
  function GetFirst(params: Params, key: string): Option<string>
  {
    if key in params && |params[key]| > 0 then Some(params[key][0]) else None
  }

  /** `createUser(params)`. */
  function CreateUser(params: Params): User
  {
    User(GetFirst(params, "userId"), GetFirst(params, "password"), GetFirst(params, "name"))
  }

  // ---------------------------------------------------------------------------
  // Request line
  // ---------------------------------------------------------------------------

  /** `requestLine.split(" ")[1]`. */
  function RequestTarget(line: string): (r: Result<string, Thrown>)
    ensures r.Failure? ==> r.error == ArrayIndexOutOfBounds(1)
  {
    var tokens := Split(line, ' ');
    if |tokens| < 2 then Failure(ArrayIndexOutOfBounds(1)) else Success(tokens[1])
  }

  /** The path and query of a URL: `url.split("\\?")[0]` and `[1]` when it holds a `?`. */
  function SplitTarget(url: string): (r: Result<(string, string), Thrown>)
    ensures r.Failure? ==> r.error == ArrayIndexOutOfBounds(0) || r.error == ArrayIndexOutOfBounds(1)
  {
    if '?' !in url then Success((url, ""))
    else
      var split := Split(url, '?');
      if |split| == 0 then Failure(ArrayIndexOutOfBounds(0))
      else if |split| == 1 then Failure(ArrayIndexOutOfBounds(1))
      else Success((split[0], split[1]))
  }

  // ---------------------------------------------------------------------------
  // Static resources
  // ---------------------------------------------------------------------------

  /** The file `handleStaticResource` settles on: root plus path, or the `index.html` of a directory. */
  function StaticFile(fs: FileSystem, path: string): (r: string)
    ensures |r| > 0
    ensures !(Normalize(StaticRoot + path) in fs && fs[Normalize(StaticRoot + path)].Directory?) ==>
      r == Normalize(StaticRoot + path)
  {
    var file := Normalize(StaticRoot + path);
    if file in fs && fs[file].Directory? then IndexFile(file) else file
  }

  /** The core handler's Content-Type: `ContentType.fromFileName(file.getName()).getMimeType()`. */
  function CoreType(file: string): string
  {
    FromFileName(GetName(file)).MimeType()
  }

  /** The older handler's Content-Type: `Files.probeContentType`, or octet-stream for `null`. */
  function ProbedType(probe: string -> Option<string>, file: string): string
  {
    probe(file).GetOr(OctetStream)
  }

  /**
   * `handleStaticResource(path, dos)` with the Content-Type chosen by `typeOf`: 404 for a missing
   * file; reading a directory throws an `IOException`, which leaves nothing written.
   */
  function ServeStatic(fs: FileSystem, path: string, typeOf: string -> string): (r: (seq<byte>, Ending))
    ensures r.1 == Returned || r.1 == CaughtIo
    ensures r.1 == CaughtIo ==> r.0 == []
  {
    var file := StaticFile(fs, path);
    if file !in fs then (Response404(), Returned)
    else
      match fs[file]
      case Directory => ([], CaughtIo)
      case RegularFile(body) => (Response200Header(|body|, typeOf(file)) + ResponseBody(body), Returned)
  }

  // ---------------------------------------------------------------------------
  // run
  // ---------------------------------------------------------------------------

  /** The body of `run` after the request line is read, with the Content-Type policy as a parameter. */
  function Serve(line: Option<string>, fs: FileSystem, users: seq<User>, decode: Decoder,
                 typeOf: string -> string): (r: Exchange)
    ensures line.None? || line == Some("") ==> r == Exchange([], users, Returned)
    ensures users <= r.users && |r.users| <= |users| + 1
    ensures r.users != users ==> r.written == Response302(LoginPath) && r.ending == Returned
    ensures r.ending != Returned ==> r.written == []
  {
    if line.None? || line.value == [] then Exchange([], users, Returned)
    else
      match RequestTarget(line.value)
      case Failure(e) => Exchange([], users, Escape(e))
      case Success(url) =>
        match SplitTarget(url)
        case Failure(e) => Exchange([], users, Escape(e))
        case Success((path, query)) =>
          match Parse(Some(query), decode)
          case Failure(e) => Exchange([], users, Escape(e))
          case Success(params) =>
            if path == CreatePath then
              if |params| == 0 then Exchange(Response400(), users, Returned)
              else Exchange(Response302(LoginPath), users + [CreateUser(params)], Returned)
            else
              var (written, ending) := ServeStatic(fs, path, typeOf);
              Exchange(written, users, ending)
  }

  /** The core handler's `run`. */
  function Run(line: Option<string>, fs: FileSystem, users: seq<User>, decode: Decoder): Exchange
  {
    Serve(line, fs, users, decode, CoreType)
  }

  /** The older handler's `run`, whose Content-Type comes from the `probe`. */
  function RunLegacy(line: Option<string>, fs: FileSystem, users: seq<User>, decode: Decoder,
                     probe: string -> Option<string>): Exchange
  {
    Serve(line, fs, users, decode, f => ProbedType(probe, f))
  }

  // ---------------------------------------------------------------------------
  // Properties: the request line
  // ---------------------------------------------------------------------------

  /**
   * The request target exists exactly when a non-space character follows the first space, and
   * it is then the text from after the first space up to the next one; a line without a space
   * fails at index 1.
   */
  lemma RequestTargetSpec(line: string)
    ensures ' ' !in line ==> RequestTarget(line) == Failure(ArrayIndexOutOfBounds(1))
    ensures ' ' in line ==>
      var i := IndexOf(line, ' ');
      && (RequestTarget(line).Success? <==> HasOtherFrom(line, ' ', i + 1))
      && (RequestTarget(line).Success? ==> RequestTarget(line).value == UpTo(line[i + 1..], ' '))
  {
    if ' ' in line {
      TargetAfterSpace(line);
    } else {
      assert Split(line, ' ') == [line];
    }
  }

  /** The request target of a line holding a space, read off the leading pieces of the split. */
  lemma TargetAfterSpace(line: string)
    requires ' ' in line
    ensures var i := IndexOf(line, ' ');
      && (RequestTarget(line).Success? <==> HasOtherFrom(line, ' ', i + 1))
      && (RequestTarget(line).Success? ==> RequestTarget(line).value == UpTo(line[i + 1..], ' '))
  {
    SplitLeadingPieces(line, ' ');
  }

  /**
   * A URL without `?` is all path with an empty query. With a `?`: index 0 fails when the URL is
   * nothing but `?`; index 1 fails when only `?` characters follow the first `?`; otherwise the
   * path is the text before the first `?` and the query the text after it up to the next `?`.
   */
  lemma SplitTargetSpec(url: string)
    ensures '?' !in url ==> SplitTarget(url) == Success((url, ""))
    ensures '?' in url ==>
      var i := IndexOf(url, '?');
      && (SplitTarget(url) == Failure(ArrayIndexOutOfBounds(0)) <==> !HasOtherFrom(url, '?', 0))
      && (SplitTarget(url) == Failure(ArrayIndexOutOfBounds(1)) <==>
            HasOtherFrom(url, '?', 0) && !HasOtherFrom(url, '?', i + 1))
      && (SplitTarget(url).Success? <==> HasOtherFrom(url, '?', i + 1))
      && (SplitTarget(url).Success? ==> SplitTarget(url).value == (url[..i], UpTo(url[i + 1..], '?')))
  {
    if '?' in url {
      SplitLeadingPieces(url, '?');
      var i := IndexOf(url, '?');
      if HasOtherFrom(url, '?', i + 1) {
        var j :| i + 1 <= j < |url| && 0 <= j && url[j] != '?';
        assert HasOtherFrom(url, '?', 0);
      }
    }
  }

  /** A request line of verb, target and anything after a further space has that target. */
  lemma TargetOfLine(verb: string, url: string, tail: string)
    requires |verb| > 0 && ' ' !in verb
    requires |url| > 0 && ' ' !in url
    requires |tail| == 0 || tail[0] == ' '
    ensures RequestTarget(verb + " " + url + tail) == Success(url)
  {
    var line := verb + " " + url + tail;
    assert line == verb + [' '] + (url + tail);
    IndexOfAfterFree(verb, ' ', url + tail);
    RequestTargetSpec(line);
    assert line[|verb| + 1] == url[0];
    UpToIs(url + tail, ' ', url);
  }

  /** A line with no space at all fails at index 1, writes nothing and leaves the users alone. */
  lemma RunLineWithoutSpace(line: string, fs: FileSystem, users: seq<User>, decode: Decoder)
    requires |line| > 0 && ' ' !in line
    ensures Run(Some(line), fs, users, decode) == Exchange([], users, Threw(ArrayIndexOutOfBounds(1)))
  {
    RequestTargetSpec(line);
  }

  /** A request line with no element 1 ends with that index failure escaping, and nothing written. */
  lemma TargetFailureEscapes(line: string, fs: FileSystem, users: seq<User>, decode: Decoder)
    requires |line| > 0 && RequestTarget(line).Failure?
    ensures Run(Some(line), fs, users, decode) == Exchange([], users, Threw(ArrayIndexOutOfBounds(1)))
  {
  }

  /**
   * A target whose `?` split lacks element 0 or element 1 ends with that index failure escaping,
   * whatever the path, and nothing written.
   */
  lemma SplitFailureEscapes(line: string, url: string, fs: FileSystem, users: seq<User>, decode: Decoder)
    requires |line| > 0 && RequestTarget(line) == Success(url)
    requires SplitTarget(url).Failure?
    ensures SplitTarget(url).error == ArrayIndexOutOfBounds(0) || SplitTarget(url).error == ArrayIndexOutOfBounds(1)
    ensures Run(Some(line), fs, users, decode) == Exchange([], users, Threw(SplitTarget(url).error))
  {
  }

  /**
   * `/create?` followed by a query free of `?` splits into `/create` and that query, except that
   * an empty query leaves the split with no element 1.
   */
  lemma SplitCreateUrl(query: string)
    requires '?' !in query
    ensures SplitTarget(CreatePath + "?" + query) ==
      if |query| > 0 then Success((CreatePath, query)) else Failure(ArrayIndexOutOfBounds(1))
  {
    var url := CreatePath + "?" + query;
    var i := |CreatePath|;
    CreateUrlQuestionMark(query);
    SplitTargetSpec(url);
    assert url[0] == '/';
    assert url[i + 1..] == query;
    if |query| > 0 {
      assert url[..i] == CreatePath;
      UpToIs(query, '?', query);
      assert url[i + 1] == query[0];
    }
  }

  lemma CreateUrlQuestionMark(query: string)
    ensures IndexOf(CreatePath + "?" + query, '?') == |CreatePath|
  {
    var url := CreatePath + "?" + query;
    assert url[|CreatePath|] == '?';
    assert forall j :: 0 <= j < |CreatePath| ==> url[j] == CreatePath[j];
  }

  /** The URL `/create?` + query is one token of the request line when the query has no space. */
  lemma CreateLineTarget(verb: string, query: string, tail: string)
    requires |verb| > 0 && ' ' !in verb
    requires |tail| == 0 || tail[0] == ' '
    requires ' ' !in query
    ensures RequestTarget(verb + " " + CreatePath + "?" + query + tail) == Success(CreatePath + "?" + query)
  {
    var url := CreatePath + "?" + query;
    assert verb + " " + CreatePath + "?" + query + tail == verb + " " + url + tail;
    CreateUrlHasNoSpace(query);
    TargetOfLine(verb, url, tail);
  }

  /** The URL `/create?` + query is free of spaces when the query is. */
  lemma CreateUrlHasNoSpace(query: string)
    requires ' ' !in query
    ensures ' ' !in CreatePath + "?" + query
  {
    assert ' ' !in CreatePath + "?";
  }

  /**
   * A URL of `/create?` fails at index 1 of the `?` split, so the exchange ends with an escaping
   * exception, not a 400.
   */
  lemma CreateWithBareQuestionMark(verb: string, tail: string, fs: FileSystem, users: seq<User>,
                                   decode: Decoder)
    requires |verb| > 0 && ' ' !in verb
    requires |tail| == 0 || tail[0] == ' '
    ensures Run(Some(verb + " " + CreatePath + "?" + tail), fs, users, decode)
      == Exchange([], users, Threw(ArrayIndexOutOfBounds(1)))
  {
    CreateLineTarget(verb, "", tail);
    assert CreatePath + "?" + "" == CreatePath + "?";
    assert verb + " " + CreatePath + "?" + "" + tail == verb + " " + CreatePath + "?" + tail;
    SplitCreateUrl("");
  }

  // ---------------------------------------------------------------------------
  // Properties: /create
  // ---------------------------------------------------------------------------

  /** The first value recorded for `key`, in encounter order. */
  function FirstValue(kvs: seq<(string, string)>, key: string): (r: Option<string>)
  {
    if |kvs| == 0 then None
    else if kvs[0].0 == key then Some(kvs[0].1)
    else FirstValue(kvs[1..], key)
  }

  lemma {:induction false} FirstValueOfValues(kvs: seq<(string, string)>, key: string)
    ensures FirstValue(kvs, key).Some? <==> key in KeysOf(kvs)
    ensures FirstValue(kvs, key).Some? ==>
      |ValuesOf(kvs, key)| > 0 && ValuesOf(kvs, key)[0] == FirstValue(kvs, key).value
    decreases |kvs|
  {
    if |kvs| > 0 {
      KeysOfCons(kvs);
      FirstValueOfValues(kvs[1..], key);
      if kvs[0].0 != key && key in KeysOf(kvs[1..]) {
        ValuesOfPresent(kvs[1..], key);
      }
    }
  }

  /**
   * `getFirst` on a parsed query is the decoded value of the first segment carrying that key,
   * and is `null` exactly when no segment carries it.
   */
  lemma GetFirstOfParse(query: string, decode: Decoder, key: string)
    requires Parse(Some(query), decode).Success?
    ensures DecodeAll(Segments(query), decode).Success?
    ensures GetFirst(Parse(Some(query), decode).value, key)
      == FirstValue(DecodeAll(Segments(query), decode).value, key)
  {
    ParseMatchesReference(query, decode);
    var kvs := DecodeAll(Segments(query), decode).value;
    FirstValueOfValues(kvs, key);
    if key in KeysOf(kvs) {
      ValuesOfPresent(kvs, key);
    }
  }

  /** The user built from a parsed query holds the first decoded userId, password and name. */
  lemma CreateUserOfParse(query: string, decode: Decoder)
    requires Parse(Some(query), decode).Success?
    ensures DecodeAll(Segments(query), decode).Success?
    ensures var kvs := DecodeAll(Segments(query), decode).value;
      CreateUser(Parse(Some(query), decode).value)
        == User(FirstValue(kvs, "userId"), FirstValue(kvs, "password"), FirstValue(kvs, "name"))
  {
    GetFirstOfParse(query, decode, "userId");
    GetFirstOfParse(query, decode, "password");
    GetFirstOfParse(query, decode, "name");
  }

  /**
   * Dispatch on `/create`: a query with no non-empty segment answers 400 and adds nobody; any
   * other successfully parsed query appends exactly its user and answers 302 to `/login`.
   */
  lemma CreateDispatch(line: string, url: string, query: string, fs: FileSystem, users: seq<User>,
                       decode: Decoder)
    requires |line| > 0 && RequestTarget(line) == Success(url)
    requires SplitTarget(url) == Success((CreatePath, query))
    requires Parse(Some(query), decode).Success?
    ensures var r := Run(Some(line), fs, users, decode);
      && (Segments(query) == [] ==> r == Exchange(Response400(), users, Returned))
      && (Segments(query) != [] ==>
            r == Exchange(Response302(LoginPath), users + [CreateUser(Parse(Some(query), decode).value)], Returned))
  {
    ParseEmptyIff(query, decode);
  }

  /** A query text built from form fields free of spaces and `?` is one URL token. */
  lemma FormQueryText(pairs: seq<(string, string)>)
    requires |pairs| >= 1
    requires forall i :: 0 <= i < |pairs| ==> ' ' !in pairs[i].0 + pairs[i].1 && '?' !in pairs[i].0 + pairs[i].1
    ensures |EncodeQuery(pairs)| > 0 && ' ' !in EncodeQuery(pairs) && '?' !in EncodeQuery(pairs)
  {
    var fields := seq(|pairs|, i requires 0 <= i < |pairs| => Field(pairs[i].0, pairs[i].1));
    forall i | 0 <= i < |fields|
      ensures ' ' !in fields[i] && '?' !in fields[i]
    {
      assert fields[i] == pairs[i].0 + "=" + pairs[i].1;
      assert ' ' !in pairs[i].0 + pairs[i].1 && '?' !in pairs[i].0 + pairs[i].1;
      forall c | c in fields[i]
        ensures c != ' ' && c != '?'
      {
        assert c in pairs[i].0 || c == '=' || c in pairs[i].1;
      }
    }
    JoinFree(fields, '&', ' ');
    JoinFree(fields, '&', '?');
    assert |fields[0]| > 0;
  }

  /**
   * End to end: `<verb> /create?k1=v1&…&kn=vn <tail>` appends the user whose fields are the
   * first decoded values of userId, password and name, and answers 302 to `/login`.
   */
  lemma CreateFromForm(verb: string, pairs: seq<(string, string)>, tail: string, fs: FileSystem,
                       users: seq<User>, decode: Decoder)
    requires |verb| > 0 && ' ' !in verb
    requires |tail| == 0 || tail[0] == ' '
    requires |pairs| >= 1 && Encodable(pairs)
    requires forall i :: 0 <= i < |pairs| ==> ' ' !in pairs[i].0 + pairs[i].1 && '?' !in pairs[i].0 + pairs[i].1
    requires forall i :: 0 <= i < |pairs| ==> decode(pairs[i].1).Success?
    ensures var kvs := DecodedValues(pairs, decode);
      Run(Some(verb + " " + CreatePath + "?" + EncodeQuery(pairs) + tail), fs, users, decode)
        == Exchange(Response302(LoginPath),
                    users + [User(FirstValue(kvs, "userId"), FirstValue(kvs, "password"), FirstValue(kvs, "name"))],
                    Returned)
  {
    var query := EncodeQuery(pairs);
    var line := verb + " " + CreatePath + "?" + query + tail;
    FormQueryText(pairs);
    CreateLineTarget(verb, query, tail);
    SplitCreateUrl(query);
    ParseEncodeQuery(pairs, decode);
    CreateUserOfParse(query, decode);
    var kvs := DecodedValues(pairs, decode);
    assert Segments(query) != [] by {
      assert |Segments(query)| == |kvs| > 0;
    }
    CreateDispatch(line, CreatePath + "?" + query, query, fs, users, decode);
  }

  // ---------------------------------------------------------------------------
  // Properties: the user store
  // ---------------------------------------------------------------------------

  /**
   * The user store changes exactly on a successful `/create` with a non-empty parameter map, and
   * then by appending that one user; every other exchange leaves it as it was.
   */
  lemma UsersChangeOnlyOnCreate(line: Option<string>, fs: FileSystem, users: seq<User>, decode: Decoder)
    ensures var r := Run(line, fs, users, decode);
      r.users != users <==>
        && line.Some? && |line.value| > 0
        && RequestTarget(line.value).Success?
        && SplitTarget(RequestTarget(line.value).value).Success?
        && SplitTarget(RequestTarget(line.value).value).value.0 == CreatePath
        && Parse(Some(SplitTarget(RequestTarget(line.value).value).value.1), decode).Success?
        && Parse(Some(SplitTarget(RequestTarget(line.value).value).value.1), decode).value != map[]
    ensures var r := Run(line, fs, users, decode);
      r.users != users ==> exists u :: r.users == users + [u]
  {
    var r := Run(line, fs, users, decode);
    if r.users != users {
      assert |r.users| == |users| + 1;
      assert r.users == users + [r.users[|users|]];
    }
  }

  // ---------------------------------------------------------------------------
  // Properties: static resources
  // ---------------------------------------------------------------------------

  /**
   * A path other than `/create` whose query parses goes to the static branch, whatever the
   * query holds: `/index.html?v=1` serves `/index.html`.
   */
  lemma StaticDispatch(line: string, url: string, path: string, query: string, fs: FileSystem,
                       users: seq<User>, decode: Decoder)
    requires |line| > 0 && RequestTarget(line) == Success(url)
    requires SplitTarget(url) == Success((path, query)) && path != CreatePath
    requires Parse(Some(query), decode).Success?
    ensures var (written, ending) := ServeStatic(fs, path, CoreType);
      Run(Some(line), fs, users, decode) == Exchange(written, users, ending)
  {
  }

  /**
   * A query the decoder rejects ends `run` before dispatch, whatever the path: nothing is
   * written, the users are kept, and the parser's error escapes (it is never an `IOException`).
   */
  lemma DecodeFailureEscapes(line: string, url: string, path: string, query: string, fs: FileSystem,
                             users: seq<User>, decode: Decoder)
    requires |line| > 0 && RequestTarget(line) == Success(url)
    requires SplitTarget(url) == Success((path, query))
    requires Parse(Some(query), decode).Failure?
    ensures Run(Some(line), fs, users, decode) == Exchange([], users, Threw(Parse(Some(query), decode).error))
  {
    ParseFailure(query, decode);
  }

  /** A missing file answers 404 with an empty body. */
  lemma StaticMissing(fs: FileSystem, path: string, typeOf: string -> string)
    requires StaticFile(fs, path) !in fs
    ensures ServeStatic(fs, path, typeOf) == (Response404(), Returned)
    ensures ReadMessage(ServeStatic(fs, path, typeOf).0) == Some(Message(Status404, [ZeroLength], []))
  {
    Read404();
  }

  /** The MIME types of the table are single-byte text without CR. */
  lemma MimeTypeIsLineText(t: ContentType)
    ensures IsLineText(t.MimeType())
  {
    MimeTypeIsPlain(t);
  }

  /**
   * A regular file answers 200: a client reads the status line, the Content-Type the resolver
   * gives for the file's name, the file's size in decimal as Content-Length, and the file's bytes.
   */
  lemma StaticFound(fs: FileSystem, path: string)
    requires StaticFile(fs, path) in fs && fs[StaticFile(fs, path)].RegularFile?
    ensures var file := StaticFile(fs, path); var body := fs[file].content;
      var m := ReadMessage(ServeStatic(fs, path, CoreType).0);
      && ServeStatic(fs, path, CoreType).1 == Returned
      && m == Some(Message(Status200,
                           ["Content-Type: " + FromFileName(GetName(file)).MimeType(),
                            "Content-Length: " + Decimal(|body|)],
                           body))
  {
    var file := StaticFile(fs, path);
    var body := fs[file].content;
    var ct := CoreType(file);
    assert ct == FromFileName(GetName(file)).MimeType();
    MimeTypeIsLineText(FromFileName(GetName(file)));
    var w := ServeStatic(fs, path, CoreType).0;
    assert w == Response200Header(|body|, ct) + ResponseBody(body);
    Read200(ct, body);
    var m := ReadMessage(w);
    assert m == Some(Message(Status200, ["Content-Type: " + ct, "Content-Length: " + Decimal(|body|)], body));
  }

  /** A directory is served through its `index.html`, always as `text/html`. */
  lemma DirectoryServesIndex(fs: FileSystem, path: string)
    requires Normalize(StaticRoot + path) in fs && fs[Normalize(StaticRoot + path)].Directory?
    ensures StaticFile(fs, path) == IndexFile(Normalize(StaticRoot + path))
    ensures CoreType(StaticFile(fs, path)) == "text/html"
  {
    var file := StaticFile(fs, path);
    IndexFileName(Normalize(StaticRoot + path));
    ExampleIndex();
  }

  /** An `index.html` that is itself a directory cannot be read: nothing is written. */
  lemma DirectoryIndexUnreadable(fs: FileSystem, path: string, typeOf: string -> string)
    requires StaticFile(fs, path) in fs && fs[StaticFile(fs, path)].Directory?
    ensures ServeStatic(fs, path, typeOf) == ([], CaughtIo)
  {
  }

  /** A trailing `/` on a static path changes nothing, since `new File` drops it. */
  lemma StaticTrailingSlash(fs: FileSystem, path: string, typeOf: string -> string)
    ensures ServeStatic(fs, path + "/", typeOf) == ServeStatic(fs, path, typeOf)
  {
    var p := StaticRoot + path;
    assert StaticRoot + (path + "/") == p + "/";
    assert p[0] == 's';
    TrailingSlashIgnored(p);
  }

  /** The static root is a normal path. */
  lemma RootIsNormal()
    ensures IsNormal(StaticRoot) && StaticRoot[|StaticRoot| - 1] != '/'
  {
    NameIsNormal("src");
    SlashNameNormal("src", "main");
    SlashNameNormal("src" + "/" + "main", "resources");
    SlashNameNormal("src" + "/" + "main" + "/" + "resources", "static");
  }

  /** The `index.html` of the static root is a normal path. */
  lemma RootIndexIsNormal()
    ensures IsNormal(StaticRoot + "/index.html")
  {
    RootIsNormal();
    SlashNameNormal(StaticRoot, "index.html");
    assert StaticRoot + "/" + "index.html" == StaticRoot + "/index.html";
  }

  /** The static root and its `index.html` are paths `new File` keeps as they are. */
  lemma RootPathsAreNormal()
    ensures Normalize(StaticRoot) == StaticRoot
    ensures Normalize(StaticRoot + "/index.html") == StaticRoot + "/index.html"
  {
    RootIsNormal();
    RootIndexIsNormal();
    NormalizeFixes(StaticRoot);
    NormalizeFixes(StaticRoot + "/index.html");
  }

  /**
   * When the static root is a directory, requesting `/` serves exactly what requesting
   * `/index.html` serves (unless that `index.html` is itself a directory).
   */
  lemma RootServesIndex(fs: FileSystem, typeOf: string -> string)
    requires StaticRoot in fs && fs[StaticRoot].Directory?
    requires !(StaticRoot + "/index.html" in fs && fs[StaticRoot + "/index.html"].Directory?)
    ensures ServeStatic(fs, "/", typeOf) == ServeStatic(fs, "/index.html", typeOf)
  {
    RootPathsAreNormal();
    TrailingSlashIgnored(StaticRoot);
    assert StaticRoot + "/" == StaticRoot + "/";
    assert StaticFile(fs, "/") == StaticRoot + "/index.html";
    assert StaticFile(fs, "/index.html") == StaticRoot + "/index.html";
  }

  // ---------------------------------------------------------------------------
  // Properties: the older handler
  // ---------------------------------------------------------------------------

  /**
   * The older handler behaves as the core one on the user store and on how the exchange ends,
   * whatever the probe says; it writes the same bytes whenever the probe agrees with the
   * resolver on every file.
   */
  lemma LegacyAgrees(line: Option<string>, fs: FileSystem, users: seq<User>, decode: Decoder,
                     probe: string -> Option<string>)
    ensures RunLegacy(line, fs, users, decode, probe).users == Run(line, fs, users, decode).users
    ensures RunLegacy(line, fs, users, decode, probe).ending == Run(line, fs, users, decode).ending
    ensures (forall f :: probe(f) == Some(CoreType(f))) ==>
      RunLegacy(line, fs, users, decode, probe) == Run(line, fs, users, decode)
  {
    ServeAgrees(line, fs, users, decode, f => ProbedType(probe, f), CoreType);
  }

  /** Two Content-Type policies give the same user store and ending, and the same bytes when they agree. */
  lemma ServeAgrees(line: Option<string>, fs: FileSystem, users: seq<User>, decode: Decoder,
                    t1: string -> string, t2: string -> string)
    ensures Serve(line, fs, users, decode, t1).users == Serve(line, fs, users, decode, t2).users
    ensures Serve(line, fs, users, decode, t1).ending == Serve(line, fs, users, decode, t2).ending
    ensures (forall f :: t1(f) == t2(f)) ==>
      Serve(line, fs, users, decode, t1) == Serve(line, fs, users, decode, t2)
  {
    if line.Some? && line.value != [] && RequestTarget(line.value).Success? {
      var url := RequestTarget(line.value).value;
      if SplitTarget(url).Success? {
        var (path, query) := SplitTarget(url).value;
        if Parse(Some(query), decode).Success? && path != CreatePath {
          StaticEndingAgrees(fs, path, t1, t2);
          assert Serve(line, fs, users, decode, t1)
            == Exchange(ServeStatic(fs, path, t1).0, users, ServeStatic(fs, path, t1).1);
          assert Serve(line, fs, users, decode, t2)
            == Exchange(ServeStatic(fs, path, t2).0, users, ServeStatic(fs, path, t2).1);
        }
      }
    }
  }

  /** How the static branch ends and whether it writes anything does not depend on the Content-Type policy. */
  lemma StaticEndingAgrees(fs: FileSystem, path: string, t1: string -> string, t2: string -> string)
    ensures ServeStatic(fs, path, t1).1 == ServeStatic(fs, path, t2).1
    ensures (forall f :: t1(f) == t2(f)) ==> ServeStatic(fs, path, t1) == ServeStatic(fs, path, t2)
  {
  }

  /** When the probe returns `null`, the older handler serves the file as octet-stream. */
  lemma LegacyProbeNull(fs: FileSystem, path: string, probe: string -> Option<string>)
    requires StaticFile(fs, path) in fs && fs[StaticFile(fs, path)].RegularFile?
    requires probe(StaticFile(fs, path)).None?
    ensures var body := fs[StaticFile(fs, path)].content;
      ServeStatic(fs, path, f => ProbedType(probe, f))
        == (Response200Header(|body|, OctetStream) + ResponseBody(body), Returned)
  {
  }

  // ---------------------------------------------------------------------------
  // Properties: what a client receives
  // ---------------------------------------------------------------------------

  /**
   * Whatever the input, the core handler writes either nothing or one whole response that a
   * client reads back with one of the four status lines.
   */
  lemma RunWritesOneResponse(line: Option<string>, fs: FileSystem, users: seq<User>, decode: Decoder)
    ensures var w := Run(line, fs, users, decode).written;
      w == [] || (ReadMessage(w).Some? &&
        ReadMessage(w).value.statusLine in {Status200, Status302, Status400, Status404})
  {
    var r := Run(line, fs, users, decode);
    if r.written != [] {
      if r.written == Response400() {
        Read400();
      } else if r.written == Response302(LoginPath) {
        assert IsLineText(LoginPath);
        Read302(LoginPath);
      } else {
        var url := RequestTarget(line.value).value;
        var path := SplitTarget(url).value.0;
        var file := StaticFile(fs, path);
        if file !in fs {
          Read404();
        } else {
          StaticFound(fs, path);
        }
      }
    }
  }
}
