/** The routing switch of `handleConnections` in app/server.go: which
    handler a target selects and the exact response text each handler
    writes. The file handlers read the store through a map; a POST is
    returned as a `Store` action that the connection handler carries out. */
module Router {
  import opened Text
  import opened Http
  import opened Wire

  /** What the switch does with one request. */
  datatype Action =
    | Reply(wire: string)              // write these bytes
    | Silent                           // write nothing (a `/files/` method other than GET or POST)
    | Store(name: string, data: string) // write `data` to file `name`, then reply

  /** The five arms of the switch. */
  datatype Handler = Root | Echo | UserAgent | Files | NotFound

  const StatusOk: string := "HTTP/1.1 200 OK"
  const StatusCreated: string := "HTTP/1.1 201 Created"
  const StatusNotFound: string := "HTTP/1.1 404 Not Found"
  const StatusServerError: string := "HTTP/1.1 503 Internal Server Error"

  const EmptyNameText: string := " Filename cannot be empty"

  const TextPlain: string := "Content-Type: text/plain"
  const OctetStreamType: string := "Content-Type: application/octet-stream"
  const GzipEncoding: string := "Content-Encoding: gzip"

  /** The fixed lines of a `200 OK` response, and its `Content-Length` line,
      are non-empty and hold no CR or LF. */
  lemma OkLinesPlain(n: nat)
    ensures PlainLines([StatusOk, TextPlain, ContentLengthName + Decimal(n)])
    ensures PlainLines([StatusOk, OctetStreamType, ContentLengthName + Decimal(n)])
    ensures PlainLines([StatusOk, GzipEncoding, TextPlain, ContentLengthName + Decimal(n)])
  {
    assert NoCrLf(StatusOk) && NoCrLf(TextPlain) && NoCrLf(OctetStreamType) && NoCrLf(GzipEncoding);
    assert NoCrLf(ContentLengthName);
    var d := Decimal(n);
    assert NoCrLf(ContentLengthName + d) by {
      forall k | 0 <= k < |ContentLengthName + d|
        ensures (ContentLengthName + d)[k] != '\r' && (ContentLengthName + d)[k] != '\n'
      {
        if k >= |ContentLengthName| {
          assert (ContentLengthName + d)[k] == d[k - |ContentLengthName|];
        }
      }
    }
  }

  /** A response with a status line and no fields: the status line, a
      blank line, then `payload`. */
  function Bare(status: string, payload: string): string
  {
    status + CRLFCRLF + payload
  }

  /** A bare response reads back as its status line, no fields and `payload`. */
  lemma ReadBare(status: string, payload: string)
    requires |status| > 0 && NoCrLf(status)
    ensures ReadMessage(Bare(status, payload)) == Some(Message(status, [], payload))
  {
    var m := Message(status, [], payload);
    assert [status] + [] == [status];
    ReadSerialize(m);
  }

  /** The write-failure response has no blank line after its status line. */
  const WriteFailedReply: string := StatusServerError + CRLF

  /** The first arm whose test the target passes. The four tests exclude
      each other, so the order of the arms never hides a route. */
  function Select(target: string): (h: Handler)
    ensures h == Root <==> target == "/"
    ensures h == Echo <==> "/echo/" <= target
    ensures h == UserAgent <==> target == "/user-agent"
    ensures h == Files <==> "/files/" <= target
  {
    if target == "/" then Root
    else if "/echo/" <= target then
      assert target[1] == 'e';
      Echo
    else if target == "/user-agent" then UserAgent
    else if "/files/" <= target then
      assert target[1] == 'f';
      Files
    else NotFound
  }

  /** `strings.Split(target, "/")[2]` for a target that starts with
      "/" + word + "/": the text after that prefix up to the next "/". */
  function Segment(target: string, word: string): (seg: string)
    requires forall k :: 0 <= k < |word| ==> word[k] != '/'
    requires "/" + word + "/" <= target
    ensures |Split(target, "/")| >= 3
    ensures seg == Before(target[|word| + 2..], "/")
  {
    ThirdPiece(target, "/", word);
    Split(target, "/")[2]
  }

  /** 200 with a `text/plain` body and its length. */
  function PlainText(msg: string): (w: string)
    ensures ReadMessage(w) ==
      Some(Message(StatusOk, [TextPlain, ContentLengthName + Decimal(|msg|)], msg))
  {
    var length := ContentLengthName + Decimal(|msg|);
    OkLinesPlain(|msg|);
    ReadTwoFields(StatusOk, TextPlain, length, msg);
    StatusOk + CRLF + TextPlain + CRLF + length + CRLFCRLF + msg
  }

  /** 200 with a gzip-encoded `text/plain` body and the encoded length. */
  function GzipText(z: string): (w: string)
    ensures ReadMessage(w) ==
      Some(Message(StatusOk, [GzipEncoding, TextPlain, ContentLengthName + Decimal(|z|)], z))
  {
    var length := ContentLengthName + Decimal(|z|);
    OkLinesPlain(|z|);
    ReadThreeFields(StatusOk, GzipEncoding, TextPlain, length, z);
    StatusOk + CRLF + GzipEncoding + CRLF + TextPlain + CRLF + length + CRLFCRLF + z
  }

  /** 200 with an `application/octet-stream` body and its length. */
  function OctetStream(contents: string): (w: string)
    ensures ReadMessage(w) ==
      Some(Message(StatusOk, [OctetStreamType, ContentLengthName + Decimal(|contents|)], contents))
  {
    var length := ContentLengthName + Decimal(|contents|);
    OkLinesPlain(|contents|);
    ReadTwoFields(StatusOk, OctetStreamType, length, contents);
    StatusOk + CRLF + OctetStreamType + CRLF + length + CRLFCRLF + contents
  }

  /** The client accepts gzip: an `accept-encoding` header whose value has
      "gzip" anywhere in it. */
  function AcceptsGzip(req: Request): (b: bool)
    ensures b <==> ("accept-encoding" in req.headers &&
                    exists j :: OccursAt(req.headers["accept-encoding"], "gzip", j))
  {
    "accept-encoding" in req.headers && Contains(req.headers["accept-encoding"], "gzip")
  }

  /** The `/echo/` arm. */
  function EchoReply(req: Request, gzip: string -> string): (w: string)
    requires "/echo/" <= req.target
    ensures var msg := Before(req.target[6..], "/");
      w == if AcceptsGzip(req) then GzipText(gzip(msg)) else PlainText(msg)
  {
    assert "/echo/" == "/" + "echo" + "/";
    var msg := Segment(req.target, "echo");
    if AcceptsGzip(req) then GzipText(gzip(msg)) else PlainText(msg)
  }

  /** The `user-agent` header, or Go's zero value "" when it is absent. */
  function UserAgentOf(req: Request): string
  {
    if "user-agent" in req.headers then req.headers["user-agent"] else ""
  }

  /** The switch of `handleConnections`, over a file store seen as a map
      from file name to contents. */
  function Route(req: Request, files: map<string, string>, gzip: string -> string): (a: Action)
    ensures a.Silent? <==> "/files/" <= req.target && req.verb != "GET" && req.verb != "POST"
    ensures a.Store? ==>
      && "/files/" <= req.target && req.verb == "POST"
      && a.name == Before(req.target[7..], "/") && a.name != "" && a.data == req.body
  {
    match Select(req.target)
    case Root => Reply(Bare(StatusOk, ""))
    case Echo => Reply(EchoReply(req, gzip))
    case UserAgent => Reply(PlainText(UserAgentOf(req)))
    case Files =>
      assert "/files/" == "/" + "files" + "/";
      var name := Segment(req.target, "files");
      if req.verb == "GET" then
        Reply(if name in files then OctetStream(files[name]) else Bare(StatusNotFound, ""))
      else if req.verb == "POST" then
        if |name| == 0 then Reply(Bare(StatusServerError, EmptyNameText)) else Store(name, req.body)
      else Silent
    case NotFound => Reply(Bare(StatusNotFound, ""))
  }
}

/** What each arm of the switch answers, read back with `Wire.ReadMessage`. */
module RouterFacts {
  import opened Text
  import opened Http
  import opened HttpFacts
  import opened Wire
  import opened Router

  /** The fixed responses, byte for byte. */
  lemma FixedRepliesExact()
    ensures Bare(StatusOk, "") == "HTTP/1.1 200 OK\r\n\r\n"
    ensures Bare(StatusNotFound, "") == "HTTP/1.1 404 Not Found\r\n\r\n"
    ensures Bare(StatusCreated, "") == "HTTP/1.1 201 Created\r\n\r\n"
    ensures Bare(StatusServerError, EmptyNameText) == "HTTP/1.1 503 Internal Server Error\r\n\r\n Filename cannot be empty"
    ensures WriteFailedReply == "HTTP/1.1 503 Internal Server Error\r\n"
  {
    EmptyNameReplyExact();
  }

  /** The empty-name answer of app/server.go:118, byte for byte. */
  lemma EmptyNameReplyExact()
    ensures Bare(StatusServerError, EmptyNameText) == "HTTP/1.1 503 Internal Server Error\r\n\r\n Filename cannot be empty"
  {
  }

  /** The write-failure response never ends its head, so a reader finds no
      message in it. */
  lemma WriteFailedIsUnterminated()
    ensures ReadMessage(WriteFailedReply) == None
  {
    assert NoCrLf(StatusServerError);
    LineHasNoBlankLine(StatusServerError);
  }

  /** `Content-Length` is found after fields that are not `Content-Length`. */
  lemma {:induction false} ContentLengthAfter(pre: seq<string>, n: nat)
    requires forall k :: 0 <= k < |pre| ==> !(ContentLengthName <= pre[k])
    ensures ContentLength(pre + [ContentLengthName + Decimal(n)]) == Some(n)
    decreases |pre|
  {
    var fields := pre + [ContentLengthName + Decimal(n)];
    if pre == [] {
      assert fields[0][|ContentLengthName|..] == Decimal(n);
      ParseDecimalOfDecimal(n);
    } else {
      assert fields[1..] == pre[1..] + [ContentLengthName + Decimal(n)];
      ContentLengthAfter(pre[1..], n);
    }
  }

  /** Target "/" gets `200 OK` with nothing else, whatever the method. */
  lemma RootReply(req: Request, files: map<string, string>, gzip: string -> string)
    requires req.target == "/"
    ensures Route(req, files, gzip) == Reply(Bare(StatusOk, ""))
  {
  }

  /** A target no arm matches gets `404 Not Found`, whatever the method. */
  lemma UnmatchedReply(req: Request, files: map<string, string>, gzip: string -> string)
    requires req.target != "/" && req.target != "/user-agent"
    requires !("/echo/" <= req.target) && !("/files/" <= req.target)
    ensures Route(req, files, gzip) == Reply(Bare(StatusNotFound, ""))
  {
  }

  /** The echo arm answers with the text between the second and third "/"
      of the target: gzip-encoded, with `Content-Encoding: gzip`, exactly
      when an `accept-encoding` header has "gzip" somewhere in its value,
      and as plain text without `Content-Encoding` otherwise. */
  lemma EchoReplies(req: Request, files: map<string, string>, gzip: string -> string)
    requires "/echo/" <= req.target
    ensures Route(req, files, gzip).Reply?
    ensures var msg := Before(req.target[6..], "/");
      var gz := "accept-encoding" in req.headers
        && exists j :: OccursAt(req.headers["accept-encoding"], "gzip", j);
      ReadMessage(Route(req, files, gzip).wire) ==
        if gz then
          Some(Message(StatusOk, [GzipEncoding, TextPlain,
                                  ContentLengthName + Decimal(|gzip(msg)|)], gzip(msg)))
        else
          Some(Message(StatusOk, [TextPlain, ContentLengthName + Decimal(|msg|)], msg))
  {
    assert "/echo/" == "/" + "echo" + "/";
    var msg := Before(req.target[6..], "/");
    assert Segment(req.target, "echo") == msg;
    assert Route(req, files, gzip) == Reply(EchoReply(req, gzip));
    if AcceptsGzip(req) {
      assert EchoReply(req, gzip) == GzipText(gzip(msg));
    } else {
      assert EchoReply(req, gzip) == PlainText(msg);
    }
  }

  /** `/user-agent` echoes the `user-agent` header (stored under its
      lower-cased name), or an empty body with `Content-Length: 0`. */
  lemma UserAgentReplies(req: Request, files: map<string, string>, gzip: string -> string)
    requires req.target == "/user-agent"
    ensures var ua := if "user-agent" in req.headers then req.headers["user-agent"] else "";
      && Route(req, files, gzip).Reply?
      && ReadMessage(Route(req, files, gzip).wire) ==
           Some(Message(StatusOk, [TextPlain, ContentLengthName + Decimal(|ua|)], ua))
    ensures "user-agent" !in req.headers ==>
      Route(req, files, gzip) == Reply(PlainText("")) && Decimal(0) == "0"
  {
  }

  /** The `/user-agent` arm answers plain text holding the header value. */
  lemma UserAgentRoute(req: Request, files: map<string, string>, gzip: string -> string)
    requires req.target == "/user-agent"
    ensures Route(req, files, gzip) == Reply(PlainText(UserAgentOf(req)))
  {
    assert Select(req.target) == UserAgent;
  }

  /** For headers built from `lines` (as `HttpFacts.ParsedHeaders` says a
      parsed request's are): with no line named `user-agent`, `/user-agent`
      echoes "". */
  lemma UserAgentMissing(req: Request, files: map<string, string>, gzip: string -> string, lines: seq<string>)
    requires AllFieldLines(lines) && req.headers == HeaderMap(lines)
    requires forall k :: 0 <= k < |lines| ==> FieldName(lines[k]) != "user-agent"
    ensures UserAgentOf(req) == ""
    ensures req.target == "/user-agent" ==> Route(req, files, gzip) == Reply(PlainText(""))
  {
    assert UserAgentOf(req) == "" by {
      HeaderMapKeys(lines, "user-agent");
    }
    if req.target == "/user-agent" {
      UserAgentRoute(req, files, gzip);
    }
  }

  /** The `user-agent` value of headers built from `lines` is the value of
      the last line with that name. */
  lemma LastUserAgentLine(req: Request, lines: seq<string>, k: nat)
    requires AllFieldLines(lines) && req.headers == HeaderMap(lines)
    requires k < |lines| && FieldName(lines[k]) == "user-agent"
    requires forall k' :: k < k' < |lines| ==> FieldName(lines[k']) != "user-agent"
    ensures UserAgentOf(req) == FieldValue(lines[k])
  {
    HeaderMapLastWins(lines, k);
  }

  /** Otherwise `/user-agent` echoes the value of the last line whose name
      lower-cases to `user-agent`. */
  lemma UserAgentIsLastLine(req: Request, files: map<string, string>, gzip: string -> string, lines: seq<string>, k: nat)
    requires AllFieldLines(lines) && req.headers == HeaderMap(lines)
    requires k < |lines| && FieldName(lines[k]) == "user-agent"
    requires forall k' :: k < k' < |lines| ==> FieldName(lines[k']) != "user-agent"
    ensures UserAgentOf(req) == FieldValue(lines[k])
    ensures req.target == "/user-agent" ==> Route(req, files, gzip) == Reply(PlainText(FieldValue(lines[k])))
  {
    if req.target == "/user-agent" {
      UserAgentRoute(req, files, gzip);
    }
    LastUserAgentLine(req, lines, k);
  }

  /** The file arm: GET answers with the stored contents or 404; POST asks
      for the body to be stored under a non-empty name, and answers 503 for
      an empty one; any other method gets no answer. */
  lemma FileReplies(req: Request, files: map<string, string>, gzip: string -> string)
    requires "/files/" <= req.target
    ensures var name := Before(req.target[7..], "/");
      && (req.verb == "GET" && name !in files ==> Route(req, files, gzip) == Reply(Bare(StatusNotFound, "")))
      && (req.verb == "GET" && name in files ==>
            Route(req, files, gzip).Reply? &&
            ReadMessage(Route(req, files, gzip).wire) ==
              Some(Message(StatusOk, [OctetStreamType,
                                      ContentLengthName + Decimal(|files[name]|)], files[name])))
      && (req.verb == "POST" && name == "" ==> Route(req, files, gzip) == Reply(Bare(StatusServerError, EmptyNameText)))
      && (req.verb == "POST" && name != "" ==> Route(req, files, gzip) == Store(name, req.body))
      && (req.verb != "GET" && req.verb != "POST" ==> Route(req, files, gzip) == Silent)
  {
    assert "/files/" == "/" + "files" + "/";
  }

  /** `w` reads back as a message, and if its status is `200 OK` it states
      the length of its content: with no fields and no content when `bare`,
      and otherwise with a `Content-Length` field holding the number of
      bytes after the first CRLF CRLF. */
  predicate StatesLength(w: string, bare: bool)
  {
    match ReadMessage(w)
    case None => false
    case Some(m) =>
      m.startLine == StatusOk ==>
        if bare then m.fields == [] && m.payload == []
        else ContentLength(m.fields) == Some(|m.payload|)
  }

  /** Every reply the switch builds can be read back, and every `200 OK`
      other than the answer to "/" has a `Content-Length` equal to its
      content's length; the answer to "/" has no fields and no content. */
  lemma ContentLengthMatchesPayload(req: Request, files: map<string, string>, gzip: string -> string)
    requires Route(req, files, gzip).Reply?
    ensures StatesLength(Route(req, files, gzip).wire, req.target == "/")
  {
    match Select(req.target)
    case Root =>
      ReadBare(StatusOk, "");
    case Echo =>
      EchoStatesLength(req, files, gzip);
    case UserAgent =>
      UserAgentReplies(req, files, gzip);
      PlainFieldsLength(|UserAgentOf(req)|);
    case Files =>
      FilesStateLength(req, files, gzip);
    case NotFound =>
      ReadBare(StatusNotFound, "");
  }

  lemma EchoStatesLength(req: Request, files: map<string, string>, gzip: string -> string)
    requires "/echo/" <= req.target
    ensures Route(req, files, gzip).Reply?
    ensures StatesLength(Route(req, files, gzip).wire, false)
  {
    EchoReplies(req, files, gzip);
    var msg := Before(req.target[6..], "/");
    PlainFieldsLength(|msg|);
    GzipFieldsLength(|gzip(msg)|);
  }

  lemma FilesStateLength(req: Request, files: map<string, string>, gzip: string -> string)
    requires "/files/" <= req.target && Route(req, files, gzip).Reply?
    ensures StatesLength(Route(req, files, gzip).wire, false)
  {
    FileReplies(req, files, gzip);
    var name := Before(req.target[7..], "/");
    if req.verb == "GET" && name in files {
      OctetFieldsLength(|files[name]|);
    } else if req.verb == "GET" {
      ReadBare(StatusNotFound, "");
    } else {
      ReadBare(StatusServerError, EmptyNameText);
    }
  }

  lemma PlainFieldsLength(n: nat)
    ensures ContentLength([TextPlain, ContentLengthName + Decimal(n)]) == Some(n)
  {
    var pre := [TextPlain];
    assert pre[0][8] != ContentLengthName[8];
    ContentLengthAfter(pre, n);
    assert pre + [ContentLengthName + Decimal(n)] == [TextPlain, ContentLengthName + Decimal(n)];
  }

  lemma OctetFieldsLength(n: nat)
    ensures ContentLength([OctetStreamType, ContentLengthName + Decimal(n)]) == Some(n)
  {
    var pre := [OctetStreamType];
    assert pre[0][8] != ContentLengthName[8];
    ContentLengthAfter(pre, n);
    assert pre + [ContentLengthName + Decimal(n)] == [OctetStreamType, ContentLengthName + Decimal(n)];
  }

  lemma GzipFieldsLength(n: nat)
    ensures ContentLength([GzipEncoding, TextPlain, ContentLengthName + Decimal(n)]) == Some(n)
  {
    var pre := [GzipEncoding, TextPlain];
    assert pre[0][8] != ContentLengthName[8];
    assert pre[1][8] != ContentLengthName[8];
    ContentLengthAfter(pre, n);
    assert pre + [ContentLengthName + Decimal(n)] == [GzipEncoding, TextPlain, ContentLengthName + Decimal(n)];
  }

  /** After a POST has stored a body under a name, a GET of that name
      answers with exactly that body. */
  lemma PostThenGet(post: Request, get: Request, files: map<string, string>, gzip: string -> string)
    requires post.verb == "POST" && get.verb == "GET"
    requires "/files/" <= post.target && get.target == post.target
    requires Route(post, files, gzip).Store?
    ensures var s := Route(post, files, gzip);
      && s.data == post.body
      && Route(get, files[s.name := s.data], gzip) == Reply(OctetStream(post.body))
  {
  }
}
