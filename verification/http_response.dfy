/**
 * The bytes the handler writes: `DataOutputStream.writeBytes` of fixed status lines and headers,
 * then the raw body. Each response is checked against an independent reader that splits a
 * message at CR LF into a status line, header lines and the body after the blank line.
 */
module HttpResponse {
  import opened Wrappers
  import opened JavaText

  newtype byte = b: int | 0 <= b < 256

  const CR: byte := 13
  const LF: byte := 10

  /** A character Java holds in one UTF-16 code unit. */
  predicate InBmp(ch: char)
  {
    ch as int < 0x1_0000
  }

  /** The UTF-16 code units Java holds a character in: one, or a surrogate pair above U+FFFF. */
  function CodeUnits(ch: char): (r: seq<int>)
    ensures |r| == (if InBmp(ch) then 1 else 2)
    ensures forall k :: 0 <= k < |r| ==> 0 <= r[k] < 0x1_0000
  {
    if InBmp(ch) then [ch as int]
    else
      var v := ch as int - 0x1_0000;
      [0xD800 + v / 0x400, 0xDC00 + v % 0x400]
  }

  /** The byte `writeBytes` emits for a code unit: its low eight bits. */
  function LowByte(unit: int): byte
  {
    (unit % 256) as byte
  }

  /** `DataOutputStream.writeBytes(s)`: the low byte of every UTF-16 code unit of `s`. */
  function WriteBytes(s: string): (r: seq<byte>)
    ensures |r| >= |s|
  {
    if |s| == 0 then []
    else
      var units := CodeUnits(s[0]);
      seq(|units|, k requires 0 <= k < |units| => LowByte(units[k])) + WriteBytes(s[1..])
  }

  const CRLF := "\r\n"

  /** The status lines; 200, 302 and 400 end in a space, 404 does not. */
  const Status200 := "HTTP/1.1 200 OK "
  const Status302 := "HTTP/1.1 302 Found "
  const Status400 := "HTTP/1.1 400 Bad Request "
  const Status404 := "HTTP/1.1 404 Not Found"
  const ZeroLength := "Content-Length: 0"

  /** `response200Header(dos, length, contentType)`. */
  function Response200Header(length: nat, contentType: string): seq<byte>
  {
    WriteBytes(Status200 + CRLF)
    + WriteBytes("Content-Type: " + contentType + CRLF)
    + WriteBytes("Content-Length: " + Decimal(length) + CRLF)
    + WriteBytes(CRLF)
  }

  /** `response302(dos, location)`. */
  function Response302(location: string): seq<byte>
  {
    WriteBytes(Status302 + CRLF)
    + WriteBytes("Location: " + location + CRLF)
    + WriteBytes(CRLF)
  }

  /** `response400(dos)`. */
  function Response400(): seq<byte>
  {
    WriteBytes(Status400 + CRLF)
    + WriteBytes(ZeroLength + CRLF)
    + WriteBytes(CRLF)
  }

  /** `response404(dos)`. */
  function Response404(): seq<byte>
  {
    WriteBytes(Status404 + CRLF)
    + WriteBytes(ZeroLength + CRLF)
    + WriteBytes(CRLF)
  }

  /** `responseBody(dos, body)`: the body bytes, unchanged. */
  function ResponseBody(body: seq<byte>): seq<byte>
  {
    body
  }

  // ---------------------------------------------------------------------------
  // Reading a message back
  // ---------------------------------------------------------------------------

  /** A response as a client sees it. */
  datatype Message = Message(statusLine: string, headers: seq<string>, body: seq<byte>)

  /** ISO-8859-1 reading of bytes. */
  function Latin1(b: seq<byte>): (r: string)
    ensures |r| == |b|
  {
    seq(|b|, i requires 0 <= i < |b| => b[i] as int as char)
  }

  /** The bytes before the first CR LF, and the bytes after it. */
  function ReadLine(b: seq<byte>): (r: Option<(seq<byte>, seq<byte>)>)
    ensures r.Some? ==> r.value.0 + [CR, LF] + r.value.1 == b
    ensures r.Some? ==> forall i :: 0 <= i < |r.value.0| ==> !(b[i] == CR && b[i + 1] == LF)
    ensures r.None? ==> forall i :: 0 <= i < |b| - 1 ==> !(b[i] == CR && b[i + 1] == LF)
    decreases |b|
  {
    if |b| < 2 then None
    else if b[0] == CR && b[1] == LF then Some(([], b[2..]))
    else
      match ReadLine(b[1..])
      case None => None
      case Some((line, rest)) => Some(([b[0]] + line, rest))
  }

  /** The lines up to the first empty one, read as ISO-8859-1, and the bytes after it. */
  function ReadHead(b: seq<byte>): (r: Option<(seq<string>, seq<byte>)>)
    ensures r.Some? ==> |r.value.1| <= |b|
    decreases |b|
  {
    match ReadLine(b)
    case None => None
    case Some((line, rest)) =>
      if line == [] then Some(([], rest))
      else
        match ReadHead(rest)
        case None => None
        case Some((lines, body)) => Some(([Latin1(line)] + lines, body))
  }

  /** A whole response: a status line, header lines, a blank line, then the body. */
  function ReadMessage(b: seq<byte>): (r: Option<Message>)
  {
    match ReadHead(b)
    case None => None
    case Some((lines, body)) =>
      if |lines| == 0 then None else Some(Message(lines[0], lines[1..], body))
  }

  /** The value of the first header called `name`. */
  function HeaderValue(headers: seq<string>, name: string): (r: Option<string>)
    ensures r.Some? ==> exists i :: 0 <= i < |headers| && headers[i] == name + ": " + r.value
    ensures r.None? ==> forall i :: 0 <= i < |headers| ==> !(name + ": " <= headers[i])
  {
    if |headers| == 0 then None
    else if name + ": " <= headers[0] then
      assert headers[0] == name + ": " + headers[0][|name| + 2..];
      Some(headers[0][|name| + 2..])
    else
      var r := HeaderValue(headers[1..], name);
      if r.Some? then
        var i :| 0 <= i < |headers[1..]| && headers[1..][i] == name + ": " + r.value;
        assert headers[i + 1] == name + ": " + r.value;
        r
      else r
  }

  // ---------------------------------------------------------------------------
  // Properties
  // ---------------------------------------------------------------------------

  /** Text a header line may hold: one byte per character, and no CR. */
  predicate IsLineText(s: string)
  {
    forall c :: c in s ==> c as int < 256 && c != '\r'
  }

  /** The head a writer produces from its lines: each line then CR LF, then an empty line. */
  function Head(lines: seq<string>): seq<byte>
  {
    if |lines| == 0 then WriteBytes(CRLF) else WriteBytes(lines[0] + CRLF) + Head(lines[1..])
  }

  lemma {:induction false} WriteBytesConcat(a: string, b: string)
    ensures WriteBytes(a + b) == WriteBytes(a) + WriteBytes(b)
    decreases |a|
  {
    if |a| == 0 {
      assert a + b == b;
    } else {
      assert (a + b)[0] == a[0];
      assert (a + b)[1..] == a[1..] + b;
      WriteBytesConcat(a[1..], b);
    }
  }

  /** Text whose characters each fit in one UTF-16 code unit is written one low byte per character. */
  lemma {:induction false} WriteBytesBmp(s: string)
    requires forall i :: 0 <= i < |s| ==> InBmp(s[i])
    ensures |WriteBytes(s)| == |s|
    ensures forall i :: 0 <= i < |s| ==> WriteBytes(s)[i] == LowByte(s[i] as int)
    decreases |s|
  {
    if |s| > 0 {
      assert forall i :: 0 <= i < |s[1..]| ==> InBmp(s[1..][i]) by {
        forall i | 0 <= i < |s[1..]|
          ensures InBmp(s[1..][i])
        {
          assert s[1..][i] == s[i + 1];
        }
      }
      WriteBytesBmp(s[1..]);
      forall i | 0 < i < |s|
        ensures WriteBytes(s)[i] == LowByte(s[i] as int)
      {
        assert WriteBytes(s)[i] == WriteBytes(s[1..])[i - 1];
        assert s[1..][i - 1] == s[i];
      }
    }
  }

  /**
   * `writeBytes` writes one byte per character exactly when every character fits in one UTF-16
   * code unit; each character above U+FFFF costs a second byte.
   */
  lemma {:induction false} WriteBytesLength(s: string)
    ensures |WriteBytes(s)| == |s| <==> forall i :: 0 <= i < |s| ==> InBmp(s[i])
    decreases |s|
  {
    if |s| > 0 {
      WriteBytesLength(s[1..]);
      if forall i :: 0 <= i < |s[1..]| ==> InBmp(s[1..][i]) {
        if InBmp(s[0]) {
          forall i | 0 <= i < |s|
            ensures InBmp(s[i])
          {
            if i > 0 {
              assert s[i] == s[1..][i - 1];
            }
          }
        }
      } else {
        var j :| 0 <= j < |s[1..]| && !InBmp(s[1..][j]);
        assert !InBmp(s[j + 1]);
      }
    }
  }

  /**
   * A character above U+FFFF is written as the low bytes of its UTF-16 surrogate pair: a high
   * surrogate in D800..DBFF and a low surrogate in DC00..DFFF that together encode the character.
   */
  lemma SupplementaryBytes(ch: char)
    requires !InBmp(ch)
    ensures var u := CodeUnits(ch);
      && |u| == 2
      && 0xD800 <= u[0] < 0xDC00 && 0xDC00 <= u[1] < 0xE000
      && 0x1_0000 + (u[0] - 0xD800) * 0x400 + (u[1] - 0xDC00) == ch as int
      && WriteBytes([ch]) == [LowByte(u[0]), LowByte(u[1])]
  {
    assert [ch][1..] == [];
  }

  /** A character above U+FFFF is written as two bytes, which a client reads as two characters. */
  lemma SupplementaryNotRecovered(ch: char)
    requires !InBmp(ch)
    ensures |WriteBytes([ch])| == 2
    ensures Latin1(WriteBytes([ch])) != [ch]
  {
  }

  lemma CrLfBytes()
    ensures WriteBytes(CRLF) == [CR, LF]
  {
  }

  /** Reading back a written line yields the line, for one-byte characters. */
  lemma Latin1WriteBytes(s: string)
    requires IsLineText(s)
    ensures Latin1(WriteBytes(s)) == s
    ensures CR !in WriteBytes(s)
  {
    assert forall i :: 0 <= i < |s| ==> InBmp(s[i]) by {
      forall i | 0 <= i < |s|
        ensures InBmp(s[i])
      {
        assert s[i] in s;
      }
    }
    WriteBytesBmp(s);
    var w := WriteBytes(s);
    forall i | 0 <= i < |s|
      ensures Latin1(w)[i] == s[i] && w[i] != CR
    {
      assert s[i] in s;
      assert w[i] as int == s[i] as int;
    }
  }

  /** A line without CR is read up to the CR LF that ends it. */
  lemma {:induction false} ReadLineOf(line: seq<byte>, rest: seq<byte>)
    requires CR !in line
    ensures ReadLine(line + [CR, LF] + rest) == Some((line, rest))
    decreases |line|
  {
    var b := line + [CR, LF] + rest;
    if |line| == 0 {
      assert b == [CR, LF] + rest;
      assert b[2..] == rest;
    } else {
      assert b[1..] == line[1..] + [CR, LF] + rest;
      ReadLineOf(line[1..], rest);
      assert [line[0]] + line[1..] == line;
    }
  }

  /** The reader recovers the lines of a head and the body after it. */
  lemma {:induction false} ReadHeadOf(lines: seq<string>, body: seq<byte>)
    requires forall i :: 0 <= i < |lines| ==> |lines[i]| > 0 && IsLineText(lines[i])
    ensures ReadHead(Head(lines) + body) == Some((lines, body))
    decreases |lines|
  {
    CrLfBytes();
    if |lines| == 0 {
      ReadLineOf([], body);
    } else {
      var first := WriteBytes(lines[0]);
      var tail := Head(lines[1..]) + body;
      HeadFirstLine(lines, body);
      Latin1WriteBytes(lines[0]);
      ReadLineOf(first, tail);
      ReadHeadOf(lines[1..], body);
      assert [lines[0]] + lines[1..] == lines;
    }
  }

  /** A head starts with the bytes of its first line, then CR LF. */
  lemma HeadFirstLine(lines: seq<string>, body: seq<byte>)
    requires |lines| > 0
    ensures Head(lines) + body == WriteBytes(lines[0]) + [CR, LF] + (Head(lines[1..]) + body)
  {
    CrLfBytes();
    WriteBytesConcat(lines[0], CRLF);
  }

  /** A whole message written from lines reads back as its status line, headers and body. */
  lemma ReadMessageOf(lines: seq<string>, body: seq<byte>)
    requires |lines| > 0
    requires forall i :: 0 <= i < |lines| ==> |lines[i]| > 0 && IsLineText(lines[i])
    ensures ReadMessage(Head(lines) + body) == Some(Message(lines[0], lines[1..], body))
  {
    ReadHeadOf(lines, body);
  }

  lemma HeadOfThree(a: string, b: string, c: string)
    ensures Head([a, b, c]) == WriteBytes(a + CRLF) + WriteBytes(b + CRLF) + WriteBytes(c + CRLF) + WriteBytes(CRLF)
  {
    assert [a, b, c][1..] == [b, c];
    assert [b, c][1..] == [c];
    assert [c][1..] == [];
    assert Head([c]) == WriteBytes(c + CRLF) + WriteBytes(CRLF);
    assert Head([b, c]) == WriteBytes(b + CRLF) + WriteBytes(c + CRLF) + WriteBytes(CRLF);
  }

  lemma HeadOfTwo(a: string, b: string)
    ensures Head([a, b]) == WriteBytes(a + CRLF) + WriteBytes(b + CRLF) + WriteBytes(CRLF)
  {
    assert [a, b][1..] == [b];
    assert [b][1..] == [];
    assert Head([b]) == WriteBytes(b + CRLF) + WriteBytes(CRLF);
  }

  lemma StatusLinesAreLineText()
    ensures IsLineText(Status200) && IsLineText(Status302)
    ensures IsLineText(Status400) && IsLineText(Status404)
  {
    SuccessLinesAreLineText();
    ErrorLinesAreLineText();
  }

  lemma SuccessLinesAreLineText()
    ensures IsLineText(Status200) && IsLineText(Status302)
  {
  }

  lemma ErrorLinesAreLineText()
    ensures IsLineText(Status400) && IsLineText(Status404)
  {
  }

  lemma HeaderNamesAreLineText()
    ensures IsLineText(ZeroLength) && IsLineText("Content-Type: ")
    ensures IsLineText("Content-Length: ") && IsLineText("Location: ")
  {
  }

  lemma DecimalIsLineText(n: nat)
    ensures IsLineText(Decimal(n))
  {
    var d := Decimal(n);
    forall c | c in d
      ensures c as int < 256 && c != '\r'
    {
      var i :| 0 <= i < |d| && d[i] == c;
      assert '0' <= d[i] <= '9';
    }
  }

  lemma ConcatLineText(a: string, b: string)
    requires IsLineText(a) && IsLineText(b)
    ensures IsLineText(a + b)
  {
  }

  /** The Content-Type header is not mistaken for the Content-Length header. */
  lemma TypeIsNotLength(contentType: string)
    ensures !("Content-Length: " <= "Content-Type: " + contentType)
  {
    var h := "Content-Type: " + contentType;
    assert h[8] == 'T';
  }

  /** The header value after `name: `. */
  lemma HeaderAfterName(name: string, value: string)
    ensures HeaderValue([name + ": " + value], name) == Some(value)
  {
    var h := name + ": " + value;
    assert name + ": " <= h;
    assert h[|name| + 2..] == value;
  }

  /** In the headers of a 200 response, Content-Length is found after Content-Type. */
  lemma LengthHeaderOf200(contentType: string, n: nat)
    ensures HeaderValue(["Content-Type: " + contentType, "Content-Length: " + Decimal(n)], "Content-Length")
      == Some(Decimal(n))
  {
    var ct := "Content-Type: " + contentType;
    var cl := "Content-Length: " + Decimal(n);
    TypeIsNotLength(contentType);
    assert "Content-Length" + ": " == "Content-Length: ";
    assert [ct, cl][1..] == [cl];
    HeaderAfterName("Content-Length", Decimal(n));
  }

  /** Lines that are non-empty line text are what the reader needs. */
  lemma ThreeLines(a: string, b: string, c: string)
    requires |a| > 0 && |b| > 0 && |c| > 0
    requires IsLineText(a) && IsLineText(b) && IsLineText(c)
    ensures forall i :: 0 <= i < |[a, b, c]| ==> |[a, b, c][i]| > 0 && IsLineText([a, b, c][i])
  {
  }

  /** A response of three lines and a body reads back as those lines and that body. */
  lemma ReadThreeLines(a: string, b: string, c: string, body: seq<byte>)
    requires |a| > 0 && |b| > 0 && |c| > 0
    requires IsLineText(a) && IsLineText(b) && IsLineText(c)
    ensures ReadMessage(WriteBytes(a + CRLF) + WriteBytes(b + CRLF) + WriteBytes(c + CRLF) + WriteBytes(CRLF) + body)
      == Some(Message(a, [b, c], body))
  {
    HeadOfThree(a, b, c);
    ThreeLines(a, b, c);
    ReadMessageOf([a, b, c], body);
    assert [a, b, c][1..] == [b, c];
  }

  /** A response of two lines and no body reads back as those lines. */
  lemma ReadTwoLines(a: string, b: string)
    requires |a| > 0 && |b| > 0
    requires IsLineText(a) && IsLineText(b)
    ensures ReadMessage(WriteBytes(a + CRLF) + WriteBytes(b + CRLF) + WriteBytes(CRLF)) == Some(Message(a, [b], []))
  {
    var w := WriteBytes(a + CRLF) + WriteBytes(b + CRLF) + WriteBytes(CRLF);
    HeadOfTwo(a, b);
    assert forall i :: 0 <= i < |[a, b]| ==> |[a, b][i]| > 0 && IsLineText([a, b][i]);
    ReadMessageOf([a, b], []);
    assert w + [] == w;
    assert [a, b][1..] == [b];
  }

  /** The header lines of a 200 response are non-empty line text. */
  lemma LinesOf200(contentType: string, n: nat)
    requires IsLineText(contentType)
    ensures IsLineText(Status200) && |Status200| > 0
    ensures IsLineText("Content-Type: " + contentType) && |"Content-Type: " + contentType| > 0
    ensures IsLineText("Content-Length: " + Decimal(n)) && |"Content-Length: " + Decimal(n)| > 0
  {
    StatusLinesAreLineText();
    HeaderNamesAreLineText();
    DecimalIsLineText(n);
    ConcatLineText("Content-Type: ", contentType);
    ConcatLineText("Content-Length: ", Decimal(n));
  }

  /**
   * A 200 response reads back as the status line, the Content-Type and Content-Length headers,
   * and exactly the body bytes after the blank line; its Content-Length value is the decimal
   * length of the body.
   */
  lemma Read200(contentType: string, body: seq<byte>)
    requires IsLineText(contentType)
    ensures var m := ReadMessage(Response200Header(|body|, contentType) + ResponseBody(body));
      && m == Some(Message(Status200,
                           ["Content-Type: " + contentType, "Content-Length: " + Decimal(|body|)],
                           body))
      && HeaderValue(m.value.headers, "Content-Length") == Some(Decimal(|body|))
      && DecimalValue(HeaderValue(m.value.headers, "Content-Length").value) == |body|
  {
    var ct := "Content-Type: " + contentType;
    var cl := "Content-Length: " + Decimal(|body|);
    LinesOf200(contentType, |body|);
    ReadThreeLines(Status200, ct, cl, body);
    LengthHeaderOf200(contentType, |body|);
    DecimalRoundTrip(|body|);
  }

  /** A 302 response reads back as its status line and one Location header, with no body. */
  lemma Read302(location: string)
    requires IsLineText(location)
    ensures var m := ReadMessage(Response302(location));
      && m == Some(Message(Status302, ["Location: " + location], []))
      && HeaderValue(m.value.headers, "Location") == Some(location)
  {
    var loc := "Location: " + location;
    StatusLinesAreLineText();
    HeaderNamesAreLineText();
    ConcatLineText("Location: ", location);
    ReadTwoLines(Status302, loc);
    HeaderAfterName("Location", location);
  }

  /** A 400 response reads back as its status line and `Content-Length: 0`, with no body. */
  lemma Read400()
    ensures ReadMessage(Response400()) == Some(Message(Status400, [ZeroLength], []))
  {
    StatusLinesAreLineText();
    HeaderNamesAreLineText();
    ReadTwoLines(Status400, ZeroLength);
  }

  /** A 404 response reads back as its status line and `Content-Length: 0`, with no body. */
  lemma Read404()
    ensures ReadMessage(Response404()) == Some(Message(Status404, [ZeroLength], []))
  {
    StatusLinesAreLineText();
    HeaderNamesAreLineText();
    ReadTwoLines(Status404, ZeroLength);
  }
}
