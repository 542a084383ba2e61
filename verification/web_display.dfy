/** The HTTP side (src/web_display.rs): the port check of `WebDisplay::new`,
    the draining of the mailbox, and the handling of one request: routing
    on the request line, reading whitelisted files, and framing the
    response. Sockets are replaced by the request line read and the bytes
    written; the mailbox by the sequence of values pending in it; the file
    system by a function from paths to contents. */
module WebDisplay {
  import opened Common
  import opened Text
  import Config

  /** The snapshot the responder serves. */
  datatype NowplayingData = NowplayingData(currentArtist: string, currentTitle: string, currentAlbum: string)

  /** What `start` serves before anything has arrived. */
  const EMPTY_DATA: NowplayingData := NowplayingData("", "", "")

  /** The responder's settings. */
  datatype WebDisplay = WebDisplay(port: string, files: seq<string>, public: bool)

  /** The two configuration panics of `WebDisplay::new`. */
  datatype PortError = PortNotANumber | PortOutOfRange

  /** The accepted ports: 80, or 1024 to 65535. */
  predicate AcceptedPort(n: int) {
    n == 80 || 1024 <= n <= 65535
  }

  /** `WebDisplay::new`: the port must parse as a `u64` in an accepted range. */
  function New(port: string, files: seq<string>, public: bool): (r: Result<WebDisplay, PortError>)
    ensures r.Success? <==> ParseU64(port).Some? && AcceptedPort(ParseU64(port).value)
    ensures r.Success? ==> r.value == WebDisplay(port, files, public)
    ensures r == Failure(PortNotANumber) <==> ParseU64(port).None?
  {
    match ParseU64(port)
    case None => Failure(PortNotANumber)
    case Some(n) => if AcceptedPort(n) then Success(WebDisplay(port, files, public)) else Failure(PortOutOfRange)
  }

  /** A port written in decimal is accepted exactly when it is 80 or lies
      in 1024..65535. */
  lemma NewDecimalPort(n: nat, files: seq<string>, public: bool)
    ensures New(NatToString(n), files, public).Success? <==> AcceptedPort(n)
  {
    if n < U64_LIMIT {
      ParseU64ToString(n);
    } else {
      ParseNatToString(n);
      NatToStringDigits(n);
      assert IsDigit(NatToString(n)[0]);
    }
  }

  /** The default port is accepted, and so are a leading `+` and port 80. */
  lemma NewAcceptedPorts(files: seq<string>, public: bool)
    ensures New("9500", files, public).Success?
    ensures New("+8080", files, public).Success?
    ensures New("80", files, public).Success?
  {
    assert NatToString(9500) == "9500";
    ParseU64ToString(9500);
    assert NatToString(8080) == "8080";
    assert "+8080"[1..] == "8080";
    ParseNatToString(8080);
    assert NatToString(80) == "80";
    ParseU64ToString(80);
  }

  /** Ports outside the ranges are refused as out of range; empty or
      negative ports as not numbers. */
  lemma NewRefusedPorts(files: seq<string>, public: bool)
    ensures New("81", files, public) == Failure(PortOutOfRange)
    ensures New("65536", files, public) == Failure(PortOutOfRange)
    ensures New("", files, public) == Failure(PortNotANumber)
    ensures New("-1", files, public) == Failure(PortNotANumber)
  {
    assert NatToString(81) == "81";
    ParseU64ToString(81);
    assert NatToString(65536) == "65536";
    ParseU64ToString(65536);
    assert !IsDigit("-1"[0]);
  }

  // ---------------------------------------------------------------------
  // The mailbox
  // ---------------------------------------------------------------------

  /** `get_nowplaying_data`: every pending value replaces the current one in
      turn, so the newest pending value wins, and without any the current
      value stays. Afterwards nothing is pending. */
  function Drain(pending: seq<NowplayingData>, current: NowplayingData): (r: NowplayingData)
    ensures |pending| > 0 ==> r == pending[|pending| - 1]
    ensures |pending| == 0 ==> r == current
  {
    if |pending| == 0 then current else Drain(pending[1..], pending[0])
  }

  /** Draining in two steps gives what one drain of everything gives. */
  lemma {:induction false} DrainSplit(a: seq<NowplayingData>, b: seq<NowplayingData>, current: NowplayingData)
    ensures Drain(a + b, current) == Drain(b, Drain(a, current))
  {
    if |b| == 0 {
      assert a + b == a;
    } else {
      assert (a + b)[|a + b| - 1] == b[|b| - 1];
    }
  }

  /** Three values sent before a drain yield the third; a second drain with
      nothing new sent yields it again. */
  lemma DrainCoalesces(s1: NowplayingData, s2: NowplayingData, s3: NowplayingData, current: NowplayingData)
    ensures Drain([s1, s2, s3], current) == s3
    ensures Drain([], Drain([s1, s2, s3], current)) == s3
  {
  }

  // ---------------------------------------------------------------------
  // Responses
  // ---------------------------------------------------------------------

  /** The three statuses the responder sends. */
  datatype Status = Ok | NotFound | Forbidden

  function StatusText(s: Status): string {
    match s
    case Ok => "HTTP/1.1 200 OK"
    case NotFound => "HTTP/1.1 404 NOT FOUND"
    case Forbidden => "HTTP/1.1 403 FORBIDDEN"
  }

  datatype Response = Response(status: Status, body: seq<byte>)

  /** The text before the length: status line and the header's name. */
  function HeadPrefix(s: Status): string {
    StatusText(s) + "\r\nContent-Length: "
  }

  /** The response as written to the stream: status line, a Content-Length
      header with the body's byte count, a blank line, the body. */
  function Serialize(r: Response): seq<byte> {
    Utf8(HeadPrefix(r.status) + NatToString(|r.body|) + "\r\n\r\n") + r.body
  }

  /** The end of the head: an empty line. */
  const HEAD_END: seq<byte> := [13, 10, 13, 10]

  predicate IsDigitByte(b: byte) {
    '0' as int <= b <= '9' as int
  }

  /** The length of the run of ASCII digits that starts the bytes. */
  function DigitRun(b: seq<byte>): (k: nat)
    ensures k <= |b|
    ensures forall i :: 0 <= i < k ==> IsDigitByte(b[i])
    ensures k < |b| ==> !IsDigitByte(b[k])
  {
    if |b| == 0 || !IsDigitByte(b[0]) then 0 else 1 + DigitRun(b[1..])
  }

  /** After the head prefix: the decimal length, the blank line, and a body
      of exactly that length. */
  function ParseAfterPrefix(s: Status, b: seq<byte>): Option<Response> {
    var k := DigitRun(b);
    match ParseNat(AsciiDecode(b[..k]))
    case None => None
    case Some(n) =>
      if IsPrefix(HEAD_END, b[k..]) && |b| - k - |HEAD_END| == n
      then Some(Response(s, b[k + |HEAD_END|..]))
      else None
  }

  /** A client's reading of a response of this shape. */
  function ParseResponse(b: seq<byte>): Option<Response> {
    if IsPrefix(Utf8(HeadPrefix(Ok)), b) then ParseAfterPrefix(Ok, b[|Utf8(HeadPrefix(Ok))|..])
    else if IsPrefix(Utf8(HeadPrefix(NotFound)), b) then ParseAfterPrefix(NotFound, b[|Utf8(HeadPrefix(NotFound))|..])
    else if IsPrefix(Utf8(HeadPrefix(Forbidden)), b) then ParseAfterPrefix(Forbidden, b[|Utf8(HeadPrefix(Forbidden))|..])
    else None
  }

  /** The head prefixes are ASCII, so they encode one byte per character. */
  lemma HeadPrefixBytes(s: Status)
    ensures |Utf8(HeadPrefix(s))| == |HeadPrefix(s)| >= 12
    ensures forall i :: 0 <= i < |HeadPrefix(s)| ==> Utf8(HeadPrefix(s))[i] == HeadPrefix(s)[i] as int
  {
    StatusTextAscii(s);
    assert IsAscii("\r\nContent-Length: ");
    AsciiAppend(StatusText(s), "\r\nContent-Length: ");
    Utf8Ascii(HeadPrefix(s));
  }

  lemma StatusTextAscii(s: Status)
    ensures IsAscii(StatusText(s))
  {
    match s
    case Ok => assert IsAscii("HTTP/1.1 200 OK");
    case NotFound => assert IsAscii("HTTP/1.1 404 NOT FOUND");
    case Forbidden => assert IsAscii("HTTP/1.1 403 FORBIDDEN");
  }

  /** No status's head prefix starts the serialization of another status. */
  lemma HeadPrefixesDistinct(s: Status, t: Status, rest: seq<byte>)
    requires s != t
    ensures !IsPrefix(Utf8(HeadPrefix(t)), Utf8(HeadPrefix(s)) + rest)
  {
    HeadPrefixBytes(s);
    HeadPrefixBytes(t);
    var ps, pt := Utf8(HeadPrefix(s)), Utf8(HeadPrefix(t));
    assert ps[9] != pt[9] || ps[11] != pt[11];
    assert (ps + rest)[9] == ps[9] && (ps + rest)[11] == ps[11];
  }

  /** The length written is the digits' run, followed by the blank line. */
  lemma {:induction false} DigitRunStopsAtHeadEnd(d: seq<byte>, rest: seq<byte>)
    requires forall i :: 0 <= i < |d| ==> IsDigitByte(d[i])
    ensures DigitRun(d + HEAD_END + rest) == |d|
    decreases |d|
  {
    if |d| > 0 {
      assert (d + HEAD_END + rest)[1..] == d[1..] + HEAD_END + rest;
      DigitRunStopsAtHeadEnd(d[1..], rest);
    }
  }

  /** The serialization is the head prefix followed by the length's digits,
      the blank line and the body. */
  lemma SerializeSplit(r: Response)
    ensures Serialize(r) == Utf8(HeadPrefix(r.status)) + (Utf8(NatToString(|r.body|)) + HEAD_END + r.body)
  {
    FramingSplit(HeadPrefix(r.status), NatToString(|r.body|), r.body);
  }

  lemma FramingSplit(head: string, digits: string, body: seq<byte>)
    ensures Utf8(head + digits + "\r\n\r\n") + body == Utf8(head) + (Utf8(digits) + HEAD_END + body)
  {
    Utf8Append(head + digits, "\r\n\r\n");
    Utf8Append(head, digits);
    HeadEndBytes();
    var h, d := Utf8(head), Utf8(digits);
    assert Utf8(head + digits + "\r\n\r\n") == h + d + HEAD_END;
    assert (h + d + HEAD_END) + body == h + (d + HEAD_END + body);
  }

  lemma HeadEndBytes()
    ensures Utf8("\r\n\r\n") == HEAD_END
  {
  }

  /** A written length is a run of digit bytes that decodes to the length. */
  lemma LengthBytes(n: nat)
    ensures forall i :: 0 <= i < |Utf8(NatToString(n))| ==> IsDigitByte(Utf8(NatToString(n))[i])
    ensures ParseNat(AsciiDecode(Utf8(NatToString(n)))) == Some(n)
  {
    var digits := NatToString(n);
    NatToStringAscii(n);
    Utf8Ascii(digits);
    NatToStringDigits(n);
    forall i | 0 <= i < |Utf8(digits)| ensures IsDigitByte(Utf8(digits)[i]) {
      assert IsDigit(digits[i]);
    }
    AsciiDecodeUtf8(digits);
    ParseNatToString(n);
  }

  /** Digits, the blank line and a body: the run of digits is exactly the
      digits, and the blank line and the body follow it. */
  lemma AfterPrefixShape(d: seq<byte>, body: seq<byte>)
    requires forall i :: 0 <= i < |d| ==> IsDigitByte(d[i])
    ensures var after := d + HEAD_END + body;
            && DigitRun(after) == |d|
            && after[..|d|] == d
            && IsPrefix(HEAD_END, after[|d|..])
            && after[|d| + |HEAD_END|..] == body
  {
    var tail := HEAD_END + body;
    var after := d + HEAD_END + body;
    assert after == d + tail;
    DigitRunStopsAtHeadEnd(d, body);
    assert after[|d|..] == tail;
    assert tail[..|HEAD_END|] == HEAD_END;
    assert tail[|HEAD_END|..] == body;
  }

  /** The bytes written after the head prefix read back as the body. */
  lemma ParseAfterPrefixLength(s: Status, body: seq<byte>)
    ensures ParseAfterPrefix(s, Utf8(NatToString(|body|)) + HEAD_END + body) == Some(Response(s, body))
  {
    var d := Utf8(NatToString(|body|));
    LengthBytes(|body|);
    AfterPrefixShape(d, body);
  }

  /** A client reading a serialized response gets back its status and its
      body: the Content-Length header counts exactly the body's bytes. */
  lemma ParseSerialize(r: Response)
    ensures ParseResponse(Serialize(r)) == Some(r)
  {
    var prefix := Utf8(HeadPrefix(r.status));
    var after := Utf8(NatToString(|r.body|)) + HEAD_END + r.body;
    SerializeSplit(r);
    ParseAfterPrefixLength(r.status, r.body);
    var b := Serialize(r);
    assert b[..|prefix|] == prefix;
    assert b[|prefix|..] == after;
    match r.status
    case Ok =>
    case NotFound =>
      HeadPrefixesDistinct(NotFound, Ok, after);
    case Forbidden =>
      HeadPrefixesDistinct(Forbidden, Ok, after);
      HeadPrefixesDistinct(Forbidden, NotFound, after);
  }

  // ---------------------------------------------------------------------
  // Requests
  // ---------------------------------------------------------------------

  /** The one request line that asks for the current track. */
  const NOWPLAYING_REQUEST: string := "GET /nowplaying HTTP/1.1"

  /** The request line that asks for a whitelisted path. */
  function RequestLineFor(path: string): string {
    "GET " + path + " HTTP/1.1"
  }

  /** Different paths are asked for by different request lines. */
  lemma RequestLineInjective(p: string, q: string)
    requires RequestLineFor(p) == RequestLineFor(q)
    ensures p == q
  {
    var l := RequestLineFor(p);
    assert p == l[4..|l| - 9];
    assert q == RequestLineFor(q)[4..|l| - 9];
  }

  /** The JSON body of the now-playing route, built by plain formatting:
      the album, when there is one, is appended to the title in brackets;
      nothing is escaped. */
  function NowplayingJson(d: NowplayingData): string {
    var title := if d.currentAlbum != "" then d.currentTitle + " [" + d.currentAlbum + "]" else d.currentTitle;
    "{\"nowplaying\": {\"title\": \"" + title + "\", \"artist\": \"" + d.currentArtist + "\"}}"
  }

  /** With an album, the album follows the title in brackets. */
  lemma NowplayingJsonWithAlbum()
    ensures NowplayingJson(NowplayingData("R", "T", "A")) == "{\"nowplaying\": {\"title\": \"T [A]\", \"artist\": \"R\"}}"
  {
  }

  /** Without an album, the title stands alone. */
  lemma NowplayingJsonWithoutAlbum()
    ensures NowplayingJson(NowplayingData("A", "B", "")) == "{\"nowplaying\": {\"title\": \"B\", \"artist\": \"A\"}}"
  {
  }

  /** A quote in a field is copied as it is, so it ends the JSON string early. */
  lemma NowplayingJsonUnescaped()
    ensures NowplayingJson(NowplayingData("R", "a\"b", "")) == "{\"nowplaying\": {\"title\": \"a\"b\", \"artist\": \"R\"}}"
  {
  }

  /** The contents of the files under each path, if the file can be opened. */
  type FileSystem = string -> Option<seq<byte>>

  /** `get_file_binary`: whitelisted paths are looked up under the
      `web_display` directory of the default work directory. */
  function GetFileBinary(home: string, fs: FileSystem, path: string): Option<seq<byte>> {
    fs(Config.DefaultWorkDirectory(home) + "web_display" + path)
  }

  /** A file's contents, or 404 with an empty body when it cannot be opened. */
  function FileResponse(contents: Option<seq<byte>>): Response {
    match contents
    case Some(bytes) => Response(Ok, bytes)
    case None => Response(NotFound, [])
  }

  /** The loop over the whitelist: every entry whose request line is the
      request sets the response; `None` when no entry matched. */
  function ServeWhitelisted(line: string, files: seq<string>, home: string, fs: FileSystem): (r: Option<Response>)
    ensures r.None? <==> forall i :: 0 <= i < |files| ==> line != RequestLineFor(files[i])
    ensures forall i :: 0 <= i < |files| && line == RequestLineFor(files[i]) ==>
              r == Some(FileResponse(GetFileBinary(home, fs, files[i])))
  {
    if |files| == 0 then None
    else
      var init := files[..|files| - 1];
      var f := files[|files| - 1];
      var earlier := ServeWhitelisted(line, init, home, fs);
      assert forall i :: 0 <= i < |init| ==> init[i] == files[i];
      if line == RequestLineFor(f) then
        assert forall i :: 0 <= i < |files| && line == RequestLineFor(files[i]) ==> files[i] == f by {
          forall i | 0 <= i < |files| && line == RequestLineFor(files[i]) ensures files[i] == f {
            RequestLineInjective(files[i], f);
          }
        }
        Some(FileResponse(GetFileBinary(home, fs, f)))
      else earlier
  }

  /** What one connection leaves behind: the bytes written back (none when
      the request line could not be read), the cached snapshot, and the
      values still pending in the mailbox. */
  datatype Exchange = Exchange(reply: Option<seq<byte>>, cached: NowplayingData, pending: seq<NowplayingData>)

  /** `handle_http_request` for one connection whose first line is `line`
      (`None` when it is absent or unreadable). */
  function HandleHttpRequest(wd: WebDisplay, home: string, fs: FileSystem, line: Option<string>,
                             pending: seq<NowplayingData>, cached: NowplayingData): (x: Exchange)
    ensures line.None? ==> x == Exchange(None, cached, pending)
    ensures line == Some(NOWPLAYING_REQUEST) ==>
              && x.cached == Drain(pending, cached)
              && x.pending == []
              && x.reply == Some(Serialize(Response(Ok, Utf8(NowplayingJson(x.cached)))))
    ensures line.Some? && line.value != NOWPLAYING_REQUEST ==> x.cached == cached && x.pending == pending
    ensures forall f :: f in wd.files && line == Some(RequestLineFor(f)) && line.value != NOWPLAYING_REQUEST ==>
              x.reply == Some(Serialize(FileResponse(GetFileBinary(home, fs, f))))
    ensures line.Some? && line.value != NOWPLAYING_REQUEST && (forall f :: f in wd.files ==> line.value != RequestLineFor(f)) ==>
              x.reply == Some(Serialize(Response(Forbidden, [])))
  {
    match line
    case None => Exchange(None, cached, pending)
    case Some(request) =>
      if request == NOWPLAYING_REQUEST then
        var current := Drain(pending, cached);
        Exchange(Some(Serialize(Response(Ok, Utf8(NowplayingJson(current))))), current, [])
      else
        var response :=
          match ServeWhitelisted(request, wd.files, home, fs)
          case Some(r) => r
          case None => Response(Forbidden, []);
        Exchange(Some(Serialize(response)), cached, pending)
  }

  /** The now-playing route wins even when `/nowplaying` is whitelisted too. */
  lemma NowplayingRouteFirst(wd: WebDisplay, home: string, fs: FileSystem,
                             pending: seq<NowplayingData>, cached: NowplayingData)
    requires "/nowplaying" in wd.files
    ensures RequestLineFor("/nowplaying") == NOWPLAYING_REQUEST
    ensures HandleHttpRequest(wd, home, fs, Some(NOWPLAYING_REQUEST), pending, cached).reply
            == Some(Serialize(Response(Ok, Utf8(NowplayingJson(Drain(pending, cached))))))
  {
  }

  /** A whitelisted path whose file is missing gets 404 with an empty body;
      one whose file exists gets 200 with exactly its bytes. */
  lemma WhitelistedFile(wd: WebDisplay, home: string, fs: FileSystem, f: string,
                        pending: seq<NowplayingData>, cached: NowplayingData)
    requires f in wd.files && f != "/nowplaying"
    ensures var x := HandleHttpRequest(wd, home, fs, Some(RequestLineFor(f)), pending, cached);
            var path := Config.DefaultWorkDirectory(home) + "web_display" + f;
            && x.cached == cached
            && (fs(path).None? ==> ParseResponse(x.reply.value) == Some(Response(NotFound, [])))
            && (fs(path).Some? ==> ParseResponse(x.reply.value) == Some(Response(Ok, fs(path).value)))
  {
    if RequestLineFor(f) == NOWPLAYING_REQUEST {
      RequestLineInjective(f, "/nowplaying");
    }
    ParseSerialize(FileResponse(GetFileBinary(home, fs, f)));
  }

  /** A line that is neither the now-playing route nor a whitelisted file
      reads back as 403 with an empty body, and leaves the snapshot and the
      mailbox alone. */
  lemma ForbiddenLine(wd: WebDisplay, home: string, fs: FileSystem, line: string,
                      pending: seq<NowplayingData>, cached: NowplayingData)
    requires line != NOWPLAYING_REQUEST
    requires forall f :: f in wd.files ==> line != RequestLineFor(f)
    ensures var x := HandleHttpRequest(wd, home, fs, Some(line), pending, cached);
            && x.cached == cached && x.pending == pending
            && ParseResponse(x.reply.value) == Some(Response(Forbidden, []))
  {
    ParseSerialize(Response(Forbidden, []));
  }

  /** The now-playing reply reads back as 200 with the UTF-8 of the JSON
      body of the newest value sent. */
  lemma NowplayingReply(wd: WebDisplay, home: string, fs: FileSystem,
                        pending: seq<NowplayingData>, cached: NowplayingData)
    requires |pending| > 0
    ensures var x := HandleHttpRequest(wd, home, fs, Some(NOWPLAYING_REQUEST), pending, cached);
            ParseResponse(x.reply.value) == Some(Response(Ok, Utf8(NowplayingJson(pending[|pending| - 1]))))
  {
    ParseSerialize(Response(Ok, Utf8(NowplayingJson(pending[|pending| - 1]))));
  }

  /** The first now-playing request, before anything was sent, serves the
      starting snapshot: empty title and artist. */
  lemma FirstRequestServesEmpty(wd: WebDisplay, home: string, fs: FileSystem)
    ensures NowplayingJson(EMPTY_DATA) == "{\"nowplaying\": {\"title\": \"\", \"artist\": \"\"}}"
    ensures var x := HandleHttpRequest(wd, home, fs, Some(NOWPLAYING_REQUEST), [], EMPTY_DATA);
            && x.cached == EMPTY_DATA
            && x.reply == Some(Serialize(Response(Ok, Utf8(NowplayingJson(EMPTY_DATA)))))
  {
  }
}
