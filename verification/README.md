# be-was web server core, modelled in Dafny

This project models the request path of a small teaching web server, with properties proved about the model:

- **The query-string parser** (`QueryStringParser.parse`, and the identical `parseQuery` of the older handler). It splits a query on `&` and skips empty pieces. It cuts each remaining piece at its first `=` into a raw key and a URL-decoded value. It gathers the pairs into a map from key to values in encounter order.
- **The content-type resolver** (`ContentType.fromFileName`). It lower-cases the text after the last `.` of a file name and looks it up in a table of seven constants. It falls back to `application/octet-stream`.
- **Request dispatch** (`RequestHandler.run` in both handler files). It reads the request line and takes its second space-separated token. It splits that token on `?` and parses the query. Then either:
  - `/create` adds a user and answers 302 to `/login`, or 400 when there are no parameters;
  - any other path serves a file under `src/main/resources/static`, answering 200 or 404.
- **Response formatting** (`response200Header`, `response302`, `response400`, `response404`, `responseBody`). These produce the exact bytes written, including the trailing space after `200 OK`, `302 Found` and `400 Bad Request`. `writeBytes` writes the low byte of each UTF-16 code unit, so a character above U+FFFF, which Java holds as a surrogate pair, becomes two bytes.

One call of `run` is modelled as a pure function, `RequestHandler.Serve`:

- It takes the request line (`None` for a closed stream), the file system, the user store, the URL decoder and the Content-Type policy.
- It returns the bytes written, the new user store, and how `run` ended: normally, in its `catch (IOException)`, or with an escaping exception.

The core handler (`Run`) and the older one (`RunLegacy`) are the same function with different Content-Type policies. The older handler's policy is `Files.probeContentType`, which is a parameter here.

Modules:

| file | module | what it holds |
|---|---|---|
| `wrappers.dfy` | `Wrappers` | `Option` and `Result` |
| `java_text.dfy` | `JavaText` | `indexOf`, `lastIndexOf`, `String.split` with limit 0 and limit 2, ASCII `toLowerCase`, decimal formatting, and the Java exceptions that can escape |
| `query_string.dfy` | `QueryStringParser` | the parser, a decode-then-group reference definition, and the properties that connect them |
| `content_type.dfy` | `ContentTypes` | the enum table and `fromFileName` |
| `java_file.dfy` | `JavaFile` | the `java.io.File` path normalisation, `new File(dir, "index.html")` and `getName()` |
| `http_response.dfy` | `HttpResponse` | `writeBytes`, the response writers, and a client-side reader used to state what a client receives |
| `request_handler.dfy` | `RequestHandler` | the user record, the file system view, `run` for both handlers, and the end-to-end properties |

Behaviours of the code that are easy to miss, all modelled as written:

- A request for `/create?` with nothing after the `?` does not answer 400. `url.split("\\?")` then has one element, so `split[1]` throws `ArrayIndexOutOfBoundsException`. That exception is not an `IOException`, so it escapes `run` and nothing is written (`CreateWithBareQuestionMark`). `/create` answers 400 exactly when the URL has no `?`, or when something other than `?` follows the first `?` and the text between the first `?` and the next `?` (or the end) has no non-empty `&`-segment. So `/create??x` answers 400: its split is `/create`, "" and `x`, and the query is "" (`SplitTargetSpec`, `CreateDispatch`).
- A request line without a space is not rejected by any check: `tokens[1]` throws, and that exception escapes `run` (`RunLineWithoutSpace`, and `TargetFailureEscapes` for every line without a target).
- A value the URL decoder rejects makes `parse` throw before dispatch. The exception escapes `run` with nothing written, whatever the path (`DecodeFailureEscapes`, with `ParseFailure` saying when the parser fails).
- The extension table includes `OCTET_STREAM` with the empty extension. So a name ending in `.` is matched inside the loop rather than by the fallback (`TrailingDot`); the outcome is the same.
- Write errors inside the response writers are caught and logged by the writers themselves, not by `run`.

## Model

Source paths are relative to the repository root. The core handler is `src/main/java/webserver/core/RequestHandler.java`; the older handler is `src/main/java/webserver/RequestHandler.java`.

| member | source | states |
|---|---|---|
| `QueryStringParser.DecodeUtf8` | src/main/java/webserver/util/QueryStringParser.java:42-48 | Succeeds exactly when the decoder does, with the decoder's text. `UnsupportedEncodingException` comes back wrapped in a runtime exception. Any other failure passes through unchanged. |
| `QueryStringParser.DecodePair` | src/main/java/webserver/util/QueryStringParser.java:24-26 | A segment without `=` is the key itself with value "", and no decoding. Otherwise the key is the raw text before the first `=`, and the value is the decoding of everything after it, later `=` included. A failed decode is the segment's failure. |
| `QueryStringParser.Add` | src/main/java/webserver/util/QueryStringParser.java:27-28 | Adds the key if absent. Appends the value at the end of that key's list. Every other key keeps its list. |
| `QueryStringParser.Parse` | src/main/java/webserver/util/QueryStringParser.java:17-19 | A null or empty query gives the empty map. |
| `QueryStringParser.DecodeAll` | src/main/java/webserver/util/QueryStringParser.java:22-29 | Reference definition. On success there is one pair per segment, each the segment's own decoding. On failure the error comes from the leftmost segment that fails, and every segment before it decodes. |
| `QueryStringParser.FirstFailureShift` | src/main/java/webserver/util/QueryStringParser.java:22-26 | After a first segment that decodes, the leftmost failure among the remaining segments is the leftmost failure of them all. |
| `QueryStringParser.SplitSegments` | src/main/java/webserver/util/QueryStringParser.java:21-23 | Java's dropping of trailing empty pieces makes no difference once the loop skips empty pieces. |
| `QueryStringParser.AccumulateSkipsEmpty` | src/main/java/webserver/util/QueryStringParser.java:22-23 | The loop gives the same result with the empty pieces removed beforehand. |
| `QueryStringParser.AccumulateStaged` | src/main/java/webserver/util/QueryStringParser.java:22-29 | Decoding and adding segment by segment equals decoding every segment first and then adding all pairs, failure included. |
| `QueryStringParser.AddAllKeys` | src/main/java/webserver/util/QueryStringParser.java:27-28 | After all pairs are added, the keys are the old keys plus the keys of the pairs. |
| `QueryStringParser.AddAllValues` | src/main/java/webserver/util/QueryStringParser.java:27-28 | After all pairs are added, each key holds its old values followed by its new ones, in pair order. |
| `QueryStringParser.AddAllFromEmpty` | src/main/java/webserver/util/QueryStringParser.java:27-36 | Adding pairs one by one to the empty map builds their grouping: each key maps to all of its values in order. |
| `QueryStringParser.ParseMatchesReference` | src/main/java/webserver/util/QueryStringParser.java:14-40 | `parse` equals the reference: decode the non-empty segments left to right, then group. A decode failure is `parse`'s failure. |
| `QueryStringParser.ParseValuesNonEmpty` | src/main/java/webserver/util/QueryStringParser.java:27-36 | Every key of a parsed map has at least one value. |
| `QueryStringParser.ParseKeysAreRaw` | src/main/java/webserver/util/QueryStringParser.java:24-25 | The keys of a parsed query are exactly the undecoded texts before the first `=` of its segments. |
| `QueryStringParser.DecodedKeysAreRaw` | src/main/java/webserver/util/QueryStringParser.java:24-25 | The keys of the decoded pairs are exactly the raw texts before the first `=`, in both directions. |
| `QueryStringParser.ParseFailure` | src/main/java/webserver/util/QueryStringParser.java:22-29 | `parse` fails exactly when some segment's value fails to decode. The reported error is the leftmost failure, and it is never the bare `UnsupportedEncodingException`. |
| `QueryStringParser.ParseEmptyIff` | src/main/java/webserver/util/QueryStringParser.java:17-23 | A successful parse gives the empty map exactly when the query has no non-empty segment. |
| `QueryStringParser.TotalValuesAdd` | src/main/java/webserver/util/QueryStringParser.java:27-28 | One `add` adds exactly one value to the map. |
| `QueryStringParser.TotalValuesAddAll` | src/main/java/webserver/util/QueryStringParser.java:22-29 | Adding n pairs adds exactly n values. |
| `QueryStringParser.ParseCountsSegments` | src/main/java/webserver/util/QueryStringParser.java:21-36 | A parsed query holds exactly one value per non-empty segment: nothing is lost and nothing is duplicated. |
| `QueryStringParser.SegmentsDoubledAmpersand` | src/main/java/webserver/util/QueryStringParser.java:21-23 | `x&&y` has the same non-empty segments as `x&y`. |
| `QueryStringParser.ParseDoubledAmpersand` | src/main/java/webserver/util/QueryStringParser.java:21-23 | `x&&y` parses exactly like `x&y`, failures included. |
| `QueryStringParser.ParseOnlyAmpersands` | src/main/java/webserver/util/QueryStringParser.java:21-23 | A query made only of `&` parses to the empty map. |
| `QueryStringParser.DecodeField` | src/main/java/webserver/util/QueryStringParser.java:24-26 | `key=value` with no `=` in the key decodes to the key and the decoded value. |
| `QueryStringParser.ParseEncodeQuery` | src/main/java/webserver/util/QueryStringParser.java:14-40 | Round trip: the query text `k1=v1&…&kn=vn` of encodable pairs parses to the pairs with values decoded, grouped by key in order. |
| `QueryStringParser.DecodeAllSucceeds` | src/main/java/webserver/util/QueryStringParser.java:22-26 | When every segment decodes to a given pair, decoding all segments yields exactly those pairs. |
| `QueryStringParser.GroupTwo` | src/main/java/webserver/util/QueryStringParser.java:27-36 | Two pairs group into one key with two values in order when their keys match, and into two keys otherwise. |
| `QueryStringParser.ParseTwoFields` | src/main/java/webserver/util/QueryStringParser.java:14-40 | `k1=v1&k2=v2` parses to `[v1]` and `[v2]` under two keys, or to `[v1, v2]` under a shared key, with values decoded. |
| `JavaText.SplitLeadingPieces` | src/main/java/webserver/core/RequestHandler.java:36-46 | Java's `split` with limit 0 has an element 0 exactly when some character is not the delimiter, and that element is the text before the first delimiter. It has an element 1 exactly when a non-delimiter follows the first delimiter, and that element is the text from there to the next delimiter. |
| `JavaText.SplitAllJoin` | src/main/java/webserver/util/QueryStringParser.java:21 | Splitting a join of delimiter-free pieces gives back the pieces. |
| `JavaText.JoinSplitAll` | src/main/java/webserver/util/QueryStringParser.java:21 | Joining the pieces of a split gives back the text. |
| `JavaText.SplitAllConcat` | src/main/java/webserver/util/QueryStringParser.java:21 | The text on either side of a delimiter splits independently. |
| `JavaText.AsciiLowerIdempotent` | src/main/java/webserver/http/ContentType.java:30 | Lower-casing twice is lower-casing once. |
| `JavaText.DecimalRoundTrip` | src/main/java/webserver/core/RequestHandler.java:127 | The decimal text written for a length reads back as that length. |
| `ContentTypes.FirstWithExtension` | src/main/java/webserver/http/ContentType.java:32-36 | The loop returns a constant of the list whose extension equals the key. When it finds none, no constant of the list has that extension. |
| `ContentTypes.ForExtension` | src/main/java/webserver/http/ContentType.java:32-38 | Any constant other than the fallback has exactly the looked-up extension. |
| `ContentTypes.FromFileName` | src/main/java/webserver/http/ContentType.java:24-28 | A name without `.` is octet-stream. |
| `ContentTypes.ExtensionsDistinct` | src/main/java/webserver/http/ContentType.java:4-10 | No two constants share an extension. |
| `ContentTypes.LookupOwnExtension` | src/main/java/webserver/http/ContentType.java:32-36 | Looking up a constant's own extension finds that constant. |
| `ContentTypes.ForExtensionSpec` | src/main/java/webserver/http/ContentType.java:32-38 | A constant other than octet-stream is chosen exactly for its own extension. |
| `ContentTypes.FromFileNameSpec` | src/main/java/webserver/http/ContentType.java:24-39 | A constant other than octet-stream is chosen exactly when the name has a `.` and the lower-cased text after the last one is that constant's extension. |
| `ContentTypes.AfterLastDot` | src/main/java/webserver/http/ContentType.java:25-30 | In `base.ext` with no `.` in `ext`, only `ext` is looked up. |
| `ContentTypes.FromOwnExtension` | src/main/java/webserver/http/ContentType.java:24-39 | Every constant is resolved from any name ending in `.` followed by its extension. |
| `ContentTypes.OnlyLastExtensionMatters` | src/main/java/webserver/http/ContentType.java:25-30 | What comes before the last `.` does not affect the result. |
| `ContentTypes.LastDotOfLower` | src/main/java/webserver/http/ContentType.java:25-30 | Lower-casing does not move the last `.`. |
| `ContentTypes.CaseInsensitive` | src/main/java/webserver/http/ContentType.java:30 | A name and its lower-cased form resolve alike. |
| `ContentTypes.TrailingDot` | src/main/java/webserver/http/ContentType.java:30-36 | A name ending in `.` is octet-stream. |
| `ContentTypes.MimeTypeIsPlain` | src/main/java/webserver/http/ContentType.java:4-10 | Every MIME type of the table is written in lower-case ASCII letters, `/` and `-`. |
| `ContentTypes.ExampleLastExtension` | src/main/java/webserver/http/ContentType.java:24-39 | `a.tar.html` is HTML. |
| `ContentTypes.ExampleEarlierExtension` | src/main/java/webserver/http/ContentType.java:24-39 | `a.html.bak` is octet-stream. |
| `ContentTypes.ExampleUpperCase` | src/main/java/webserver/http/ContentType.java:30-36 | `x.HTML` is HTML. |
| `ContentTypes.ExampleIndex` | src/main/java/webserver/http/ContentType.java:20-39 | `index.html` is served as `text/html`. |
| `JavaFile.CollapseSlashes` | src/main/java/webserver/core/RequestHandler.java:84 | The path kept has no `//` and starts with the same character. It keeps the text before the first `/`, and the names between separators, in order. |
| `JavaFile.Normalize` | src/main/java/webserver/core/RequestHandler.java:84 | The path kept is normal: no `//`, and no trailing `/` except for the root. It starts with the same character, keeps the text before the first `/`, and names the same file: the same names between separators, in order. |
| `JavaFile.NormalizeFixes` | src/main/java/webserver/core/RequestHandler.java:84 | A normal path is kept as it is, so normalising twice is normalising once. |
| `JavaFile.TrailingSlashIgnored` | src/main/java/webserver/core/RequestHandler.java:84 | A trailing `/` on a relative path does not change the file. |
| `JavaFile.IndexFileName` | src/main/java/webserver/core/RequestHandler.java:86-88 | The file substituted for a directory is named `index.html`. |
| `HttpResponse.WriteBytes` | src/main/java/webserver/core/RequestHandler.java:125-128 | At least one byte per character. |
| `HttpResponse.WriteBytesBmp` | src/main/java/webserver/core/RequestHandler.java:125-128 | When every character fits in one UTF-16 code unit, exactly one byte per character, each the character's low eight bits. |
| `HttpResponse.WriteBytesLength` | src/main/java/webserver/RequestHandler.java:137-142 | One byte per character exactly when no character lies above U+FFFF. A probed Content-Type with such a character therefore writes more bytes than characters. |
| `HttpResponse.SupplementaryBytes` | src/main/java/webserver/RequestHandler.java:137-142 | A character above U+FFFF is written as the low bytes of its surrogate pair: a high surrogate in D800..DBFF, then a low surrogate in DC00..DFFF, which together encode the character. |
| `HttpResponse.SupplementaryNotRecovered` | src/main/java/webserver/RequestHandler.java:137-142 | A character above U+FFFF is written as two bytes, and a client does not read it back. |
| `HttpResponse.Latin1WriteBytes` | src/main/java/webserver/core/RequestHandler.java:125-128 | Text of one-byte characters without CR, written with `writeBytes`, reads back unchanged as ISO-8859-1, and the bytes written hold no CR. |
| `HttpResponse.ReadHeadOf` | src/main/java/webserver/core/RequestHandler.java:123-132 | A head written as lines, each followed by CR LF, then an empty line, reads back as those lines, with the body after it. |
| `HttpResponse.Read200` | src/main/java/webserver/core/RequestHandler.java:123-132 | A 200 response reads back as status `HTTP/1.1 200 OK `, then `Content-Type` and `Content-Length` headers, then the body. The Content-Length value parses to the body's length. |
| `HttpResponse.Read302` | src/main/java/webserver/core/RequestHandler.java:134-143 | A 302 response reads back as status `HTTP/1.1 302 Found ` and one `Location` header, with no body. |
| `HttpResponse.Read400` | src/main/java/webserver/core/RequestHandler.java:145-154 | A 400 response reads back as status `HTTP/1.1 400 Bad Request ` and `Content-Length: 0`, with no body. |
| `HttpResponse.Read404` | src/main/java/webserver/core/RequestHandler.java:156-165 | A 404 response reads back as status `HTTP/1.1 404 Not Found`, with no trailing space, and `Content-Length: 0`, with no body. |
| `RequestHandler.Escape` | src/main/java/webserver/core/RequestHandler.java:66-68 | An exception ends in the `catch` exactly when it is an `IOException`. Either way `run` does not return normally. |
| `RequestHandler.RequestTarget` | src/main/java/webserver/core/RequestHandler.java:36-37 | The only failure is index 1 out of bounds. |
| `RequestHandler.SplitTarget` | src/main/java/webserver/core/RequestHandler.java:39-46 | The only failures are index 0 or index 1 out of bounds. |
| `RequestHandler.RequestTargetSpec` | src/main/java/webserver/core/RequestHandler.java:36-37 | The target exists exactly when a non-space follows the first space. It is the text from there to the next space. A line without a space fails at index 1. |
| `RequestHandler.SplitTargetSpec` | src/main/java/webserver/core/RequestHandler.java:39-46 | Without `?`: the path is the URL and the query is "". With `?`: index 0 fails exactly for an all-`?` URL, and index 1 fails exactly when only `?` follow the first one. Otherwise the path is the text before the first `?`, and the query is the text from after it up to the next `?`. |
| `RequestHandler.TargetOfLine` | src/main/java/webserver/core/RequestHandler.java:36-37 | `verb url rest` has target `url`. |
| `RequestHandler.TargetFailureEscapes` | src/main/java/webserver/core/RequestHandler.java:36-37 | A line with no request target writes nothing, keeps the users, and ends with index 1 out of bounds escaping. |
| `RequestHandler.SplitFailureEscapes` | src/main/java/webserver/core/RequestHandler.java:42-46 | A target whose `?` split lacks element 0 or 1 writes nothing, keeps the users, and ends with that index failure escaping, whatever the path. |
| `RequestHandler.RunLineWithoutSpace` | src/main/java/webserver/core/RequestHandler.java:36-37 | A line without a space writes nothing, keeps the users, and ends with index 1 out of bounds escaping. |
| `RequestHandler.SplitCreateUrl` | src/main/java/webserver/core/RequestHandler.java:42-46 | `/create?q` splits into `/create` and `q`, except that an empty `q` fails at index 1. |
| `RequestHandler.CreateLineTarget` | src/main/java/webserver/core/RequestHandler.java:36-37 | `/create?q` with a space-free `q` is the request target. |
| `RequestHandler.CreateWithBareQuestionMark` | src/main/java/webserver/core/RequestHandler.java:42-46 | `/create?` with an empty query writes nothing and ends with index 1 out of bounds escaping, not with a 400. |
| `RequestHandler.GetFirstOfParse` | src/main/java/webserver/core/RequestHandler.java:78-81 | `getFirst` on a parsed query is the decoded value of the first segment carrying the key, and null exactly when none carries it. |
| `RequestHandler.CreateUserOfParse` | src/main/java/webserver/core/RequestHandler.java:71-76 | The new user holds the first decoded `userId`, `password` and `name`, each null when missing. |
| `RequestHandler.CreateDispatch` | src/main/java/webserver/core/RequestHandler.java:52-63 | At `/create`, a query with no non-empty segment answers 400 and adds nobody. Any other parsed query appends its one user and answers 302 to `/login`. |
| `RequestHandler.FormQueryText` | src/main/java/webserver/core/RequestHandler.java:36-46 | A form query built from fields without spaces or `?` is non-empty and holds neither. |
| `RequestHandler.CreateFromForm` | src/main/java/webserver/core/RequestHandler.java:22-76 | End to end: `verb /create?k1=v1&…` appends exactly the user made of the first decoded `userId`, `password` and `name`, and writes the 302 to `/login`. |
| `RequestHandler.Serve` | src/main/java/webserver/core/RequestHandler.java:22-69 | Covers both handlers. A null or empty line does nothing. The user store grows by at most one user, only together with the 302. An exchange that does not end normally has written nothing. |
| `RequestHandler.UsersChangeOnlyOnCreate` | src/main/java/webserver/core/RequestHandler.java:52-63 | The store changes exactly on a `/create` whose query parses to a non-empty map, and then by appending one user. |
| `RequestHandler.StaticDispatch` | src/main/java/webserver/core/RequestHandler.java:39-65 | Any path other than `/create` whose query parses goes to the static branch with that path, whatever the query holds: `/index.html?v=1` serves `/index.html`. |
| `RequestHandler.DecodeFailureEscapes` | src/main/java/webserver/core/RequestHandler.java:48-68 | When the query fails to parse, whatever the path, nothing is written, the users are kept, and the parser's error escapes `run`. |
| `RequestHandler.ServeStatic` | src/main/java/webserver/core/RequestHandler.java:83-112 | Serving a file returns normally or ends in the `catch`. In the `catch` case nothing was written. |
| `RequestHandler.StaticMissing` | src/main/java/webserver/core/RequestHandler.java:90-93 | A missing file answers 404, which a client reads back with `Content-Length: 0` and no body. |
| `RequestHandler.MimeTypeIsLineText` | src/main/java/webserver/core/RequestHandler.java:96-97 | Every resolved MIME type can be written in a header line. |
| `RequestHandler.StaticFound` | src/main/java/webserver/core/RequestHandler.java:95-98 | A regular file answers 200. A client reads the resolver's MIME type for the file's name, the file size in decimal, and the file's bytes. |
| `RequestHandler.DirectoryServesIndex` | src/main/java/webserver/core/RequestHandler.java:86-96 | A directory is served through its `index.html`, always as `text/html`. |
| `RequestHandler.DirectoryIndexUnreadable` | src/main/java/webserver/core/RequestHandler.java:101-112 | When the file to read is a directory, the read throws an `IOException` that `run` catches, and nothing is written. |
| `RequestHandler.StaticTrailingSlash` | src/main/java/webserver/core/RequestHandler.java:84 | `path/` serves exactly what `path` serves. |
| `RequestHandler.RootServesIndex` | src/main/java/webserver/core/RequestHandler.java:84-88 | When the static root is a directory, requesting `/` serves exactly what requesting `/index.html` serves, unless that `index.html` is itself a directory. |
| `RequestHandler.LegacyAgrees` | src/main/java/webserver/RequestHandler.java:26-144 | Whatever the probe says, the older handler leaves the same users and ends the same way as the core one. It writes the same bytes whenever the probe agrees with the resolver. |
| `RequestHandler.ServeAgrees` | src/main/java/webserver/RequestHandler.java:123-144 | Two Content-Type policies give the same users and ending, and the same bytes when they agree on every file. |
| `RequestHandler.StaticEndingAgrees` | src/main/java/webserver/RequestHandler.java:123-144 | The static branch's ending does not depend on the Content-Type policy. |
| `RequestHandler.LegacyProbeNull` | src/main/java/webserver/RequestHandler.java:137-140 | When the probe returns null, the older handler serves the file as `application/octet-stream`. |
| `RequestHandler.RunWritesOneResponse` | src/main/java/webserver/core/RequestHandler.java:22-69 | The core handler writes either nothing or one whole response, which a client reads back with one of the four status lines. |
| `RequestHandler.Run` | src/main/java/webserver/core/RequestHandler.java:22-69 | No contract of its own. It is `Serve` with the core Content-Type policy; its behaviour is stated by `Serve`, `CreateDispatch`, `StaticDispatch`, `DecodeFailureEscapes`, `TargetFailureEscapes`, `SplitFailureEscapes` and `RunWritesOneResponse`. |
| `RequestHandler.RunLegacy` | src/main/java/webserver/RequestHandler.java:26-73 | No contract of its own. It is `Serve` with the probe as Content-Type policy; `LegacyAgrees` relates it to the core handler. |
| `QueryStringParser.Accumulate` | src/main/java/webserver/util/QueryStringParser.java:21-29 | No contract of its own. Its behaviour is stated by `AccumulateSkipsEmpty`, `AccumulateStaged` and `ParseMatchesReference`. |
| `RequestHandler.GetFirst` | src/main/java/webserver/core/RequestHandler.java:78-81 | No contract of its own. Its behaviour on a parsed query is stated by `GetFirstOfParse`. |
| `RequestHandler.CreateUser` | src/main/java/webserver/core/RequestHandler.java:71-76 | No contract of its own. Its behaviour on a parsed query is stated by `CreateUserOfParse`. |
| `RequestHandler.StaticFile` | src/main/java/webserver/core/RequestHandler.java:84-88 | Unless the static root plus the path is a directory, the file is that path as `new File` normalises it. The directory case is stated by `DirectoryServesIndex`. |
| `RequestHandler.ProbedType` | src/main/java/webserver/RequestHandler.java:137-140 | No contract of its own. Its behaviour is stated by `LegacyProbeNull` and `LegacyAgrees`. |
| `HttpResponse.Response200Header` | src/main/java/webserver/core/RequestHandler.java:123-132 | No contract of its own. What a client reads from it is stated by `Read200`. |
| `HttpResponse.Response302` | src/main/java/webserver/core/RequestHandler.java:134-143 | No contract of its own. What a client reads from it is stated by `Read302`. |
| `HttpResponse.Response400` | src/main/java/webserver/core/RequestHandler.java:145-154 | No contract of its own. What a client reads from it is stated by `Read400`. |
| `HttpResponse.Response404` | src/main/java/webserver/core/RequestHandler.java:156-165 | No contract of its own. What a client reads from it is stated by `Read404`. |
| `HttpResponse.ResponseBody` | src/main/java/webserver/core/RequestHandler.java:167-174 | No contract of its own. That the body follows the head unchanged is stated by `Read200`. |
| `JavaText.Split` | src/main/java/webserver/core/RequestHandler.java:36-45 | No contract of its own. Its leading elements are stated by `SplitLeadingPieces`, and its use on queries by `QueryStringParser.SplitSegments`. |
| `JavaText.SplitOnce` | src/main/java/webserver/util/QueryStringParser.java:24 | One or two pieces. Two exactly when the text holds the delimiter; then the first piece is free of it, and the pieces joined by it give back the text. Otherwise the one piece is the text. |
| `JavaText.LastIndexOf` | src/main/java/webserver/http/ContentType.java:25 | -1 exactly when the character is absent. Otherwise an index holding the character with no later occurrence. |
| `JavaText.AsciiLower` | src/main/java/webserver/http/ContentType.java:30 | Same length. Each letter `A`..`Z` becomes its lower-case letter, 32 code points on, and every other character is unchanged. |
| `JavaText.Decimal` | src/main/java/webserver/core/RequestHandler.java:127 | A non-empty string of decimal digits with no leading zero. `DecimalRoundTrip` shows it reads back as the number. |
| `JavaFile.GetName` | src/main/java/webserver/core/RequestHandler.java:96 | The name holds no `/` and ends the path. It is the whole path, or it is preceded by a `/`. |
| `JavaFile.IndexFile` | src/main/java/webserver/core/RequestHandler.java:87 | The directory's path is a prefix of the result, and the result's names are the directory's names followed by `index.html`: the file sits directly inside the directory. |

## Left out

- Sockets, streams, `flush`, threads and logging are not modelled. The request line arrives as a parameter, and the bytes written are the result.
- `printRequestLog` reads and logs the remaining header lines, and can throw an `IOException`. Neither is modelled: the headers influence nothing else.
- The file system is a map from the path a `java.io.File` keeps to a regular file or a directory. `..`, symbolic links, permissions and read errors other than reading a directory are not modelled. Path traversal therefore shows up only as a different key.
- `URLDecoder.decode` is an abstract parameter that either yields text or fails. Its percent-decoding rules and its `IllegalArgumentException` cases are not spelled out.
- `Files.probeContentType` is an abstract parameter, and its `IOException` is not modelled.
- `Database.addUser` is modelled as appending to a sequence of users. The `Database` class is not part of this model.
- `toLowerCase` is modelled for ASCII letters only. Locale-dependent and non-ASCII case mappings are left out.
- `IOException`s inside the response writers are caught and logged by the writers. The model assumes every write succeeds.
- RequestHandler.Serve: its contract states only the invariants that hold for every request. What each branch writes is stated by `TargetFailureEscapes`, `SplitFailureEscapes`, `DecodeFailureEscapes`, `CreateDispatch`, `StaticDispatch`, `StaticMissing`, `StaticFound` and `DirectoryIndexUnreadable`.
- `Content-Length` is written from a Java `int`. The model uses an unbounded natural, so files of 2 GiB or more are not distinguished.
- RequestHandler.StaticFound states the Content-Length text as the decimal of the size. That this text parses back to the size is stated by `HttpResponse.Read200`.
- ContentTypes.FromFileName: its contract states only the no-`.` case; the full input-output relation is `FromFileNameSpec`. That `fromFileName` always returns a value holds by typing and is not a separate contract.
- `parseQuery` and `decodeUtf8` of the older handler (src/main/java/webserver/RequestHandler.java:87-121) are the same code as the parser's. They are modelled by `QueryStringParser.Parse`.
- HttpResponse.WriteBytes: its own contract states only that at least one byte is written per character. The bytes of text within the BMP are stated by `WriteBytesBmp`. The two bytes of a character above U+FFFF are stated by `SupplementaryBytes`. `WriteBytesLength` states when the byte count equals the character count. Keeping these out of the contract keeps the recursive definition cheap to reason about.
