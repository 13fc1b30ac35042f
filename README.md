# A minimal HTTP/1.1 server: request parsing and routing

This project models the core of `app/server.go`, a small HTTP/1.1 server.
The core has two parts:

- `ParseRequest` turns the bytes of one read into a request. It takes the
  method, the target, a header map keyed by lower-cased names, and a body
  with its NULs trimmed.
- The switch in `handleConnections` routes the request and writes back one
  response. The routes are `/`, `/echo/<text>` (gzip-encoded when the
  client accepts it), `/user-agent`, and GET or POST on `/files/<name>`.
  Anything else gets 404.

Wire data is a Dafny `string` with one character per octet. Go's `len` of a
string is therefore the length of the sequence, and `Content-Length` values
are those lengths.

Modules:

- `Text` holds the Go string functions the server uses: `strings.Split`,
  `strings.Contains`, `bytes.Trim` of NULs, `strings.ToLower` and decimal
  formatting with `%d`. Their contracts are proved.
- `Http` holds the request type, the `Parse` function that says what
  `ParseRequest` returns, and the imperative `ParseRequest` and header loop,
  proved against `Parse`. `HttpFacts` states what a parsed request is in
  terms of the raw buffer.
- `Wire` is a reference reader and writer for HTTP/1.1 message framing
  (section 2.1 of RFC 9112). The responses are proved against it.
- `Router` is the switch as a pure function from a request and the file
  store to an action. `RouterFacts` reads each response back with
  `Wire.ReadMessage` and states its status line, fields and content.
- `Server` holds the file store as a class whose `WriteFile` changes it in
  place, and the connection handler that parses, routes and carries out a
  write.

The model follows the code as written, including these behaviours:

- A POST to `/files/` with an empty name answers
  `503 Internal Server Error` with the text ` Filename cannot be empty`
  after the blank line (`app/server.go:116-119`). Section 15.6.4 of
  RFC 9110 names status 503 "Service Unavailable"; the code pairs it with
  the reason phrase of 500.
- A failed write answers `503` with only its status line and one CRLF, so
  the head is never terminated (`app/server.go:125`). Section 2.1 of
  RFC 9112 requires an empty line after the header section, so no client
  can read a complete message from it.
- Gzip is chosen when the `accept-encoding` value contains `gzip` anywhere,
  as a substring (`app/server.go:72`). Section 12.5.3 of RFC 9110 treats
  `Accept-Encoding` as a list of codings with weights; the code tests for a
  substring, so `gzip;q=0` and `x-gzip` also select gzip.
- The echoed text is `strings.Split(target, "/")[2]`, which stops at the
  next `/` (`app/server.go:69`).
- The body is the text between the first and the second CRLF CRLF
  (`app/server.go:143-146`). Anything after a second blank line is dropped.
- A malformed request makes `ParseRequest` index past the end of a split.
  The model returns a `ParseError` in its place and the connection ends as
  `Panicked` (`app/server.go:145,152,158`). In Go an unrecovered panic in a
  goroutine stops the whole process, not only that connection.
- A `/files/` request whose method is neither GET nor POST gets no response
  at all (`app/server.go:99-130`).

## Model

| member | source | states |
|---|---|---|
| Text.Split | app/server.go:143 | `strings.Split`: at least one piece |
| Text.JoinSplit | app/server.go:143 | joining the pieces of a split with the separator gives back the original text |
| Text.SplitPiecesHaveNoSeparator | app/server.go:148-149 | no piece of a split holds the separator |
| Text.SplitSecondPiece | app/server.go:152 | a split has a second piece exactly when the separator occurs; that piece runs from after the first occurrence to the next one |
| Text.SplitFirstIsBefore | app/server.go:151 | the first piece of a split is the text before the first occurrence of the separator |
| Text.ThirdPiece | app/server.go:96 | a text that starts with "/", a slash-free word and "/" always splits on "/" into at least three pieces, and the third is the text after that prefix up to the next "/" |
| Text.Contains | app/server.go:72 | `strings.Contains`: true exactly when the text occurs at some position |
| Text.Index | app/server.go:143 | the leftmost occurrence, with none before it; none when the text does not occur |
| Text.TrimNul | app/server.go:145 | `bytes.Trim(…, "\x00")`: the result is a slice of the input with only NULs cut on either side, and it neither starts nor ends with NUL |
| Text.TrimNulKeepsAbsence | app/server.go:145 | trimming NULs never creates an occurrence of a text without NULs |
| Text.ToLower | app/server.go:158 | same length; each ASCII upper-case letter becomes its lower-case partner (`LowerChar`), every other char is unchanged, and no upper-case letter remains |
| Text.ToLowerIdempotent | app/server.go:158 | lower-casing twice is lower-casing once |
| Text.ToLowerIgnoresCase | app/server.go:158 | two names lower-case to the same key exactly when they differ at most in the case of ASCII letters (`SameIgnoringCase`, defined without `ToLower`) |
| Text.Decimal | app/server.go:85 | `%d` of a length: non-empty, only digits, no leading zero |
| Text.ParseDecimalOfDecimal | app/server.go:85 | reading the written decimal gives back the number |
| Text.SplitJoinLines | app/server.go:148 | splitting lines joined by CRLF gives back the lines when none holds a CR or LF |
| Text.BlankLineEndsHead | app/server.go:143 | the first CRLF CRLF of a head followed by a blank line is right after the head |
| Http.HeaderMap | app/server.go:156-159 | the name of every header line is a key, and every key is lower-case |
| Http.Parse | app/server.go:138-162 | a parsed request's method and target hold no space, its header keys are lower-case, and its body holds no CRLF CRLF |
| Http.FillHeaders | app/server.go:154-159 | the header loop returns the map built from all lines, a later line replacing an earlier one with the same lower-cased name, or fails exactly when some line has no ": " |
| Http.ParseRequest | app/server.go:138-162 | returns the request `Parse` describes, or the error at the place Go would panic |
| Http.FieldName | app/server.go:158 | the map key of a header line is in lower case |
| HttpFacts.FieldLineHasSeparator | app/server.go:157-158 | a header line can be stored exactly when it contains ": "; the key is the lower-cased text before the first ": " and the value runs up to the second |
| HttpFacts.ParseFailsExactly | app/server.go:143-158 | parsing fails with no header end exactly when there is no CRLF CRLF; with no target exactly when the request line has no space; with a malformed header exactly when some header line has no ": "; in that order |
| HttpFacts.ParsedRequestLine | app/server.go:148-152 | the method is the text before the first space of the request line, and the target is the text from there to the next space |
| HttpFacts.ParsedBody | app/server.go:143-146 | the body is the NUL-trimmed text between the first and second CRLF CRLF; it holds no CRLF CRLF and neither starts nor ends with NUL |
| HttpFacts.ParsedHeaders | app/server.go:154-159 | every header line after the request line has ": ", and the map is built from those lines in order |
| HttpFacts.HeaderMapKeys | app/server.go:156-159 | a name is a key exactly when some line's lower-cased name equals it; every key is lower-case |
| HttpFacts.HeaderMapLastWins | app/server.go:156-159 | with repeated names the value of the last such line is kept |
| HttpFacts.HeaderNameCaseInsensitive | app/server.go:157-158 | two header lines that differ only in the letter case of their names are both storable and give the same key and the same value |
| HttpFacts.HeaderMapIgnoresNameCase | app/server.go:156-159 | header lists that differ line by line only in the case of their names build the same map |
| HttpFacts.ParseIgnoresNameCase | app/server.go:154-159 | two parsed buffers whose header lines differ only in the case of their names get the same headers map (field names are case-insensitive, section 5.1 of RFC 9110) |
| Wire.ReadSerialize | app/server.go:78 | a response written as start line, CRLF-separated fields, blank line and content reads back as exactly those parts |
| Wire.ReadIsSerialized | app/server.go:78 | reading is injective: a text that reads as a message is exactly that message written out, so every read-back below fixes the exact bytes of the response |
| Router.ReadBare | app/server.go:64 | a response with only a status line reads back with no fields and the given content |
| Router.Select | app/server.go:62-95 | each arm is taken exactly when its test on the target holds; the tests exclude each other |
| Router.Segment | app/server.go:69 | `strings.Split(target, "/")[2]` exists for a target that starts with "/" + word + "/", and it is the text after that prefix up to the next "/" |
| Router.AcceptsGzip | app/server.go:68-72 | true exactly when there is an `accept-encoding` header and "gzip" occurs somewhere in its value |
| Router.EchoReply | app/server.go:67-88 | the echo answer is the gzip response of the encoded segment when the client accepts gzip, and the plain response of the segment (the text after "/echo/" up to the next "/") otherwise |
| Router.Route | app/server.go:62-135 | no answer exactly for a `/files/` target whose method is neither GET nor POST; a store action only for a POST to `/files/`, under the non-empty segment after "/files/", with the request body as data |
| Router.PlainText | app/server.go:85 | reads back as `200 OK` with `Content-Type: text/plain`, `Content-Length` of the message's length, and the message as content |
| Router.GzipText | app/server.go:78 | reads back as `200 OK` with `Content-Encoding: gzip`, `Content-Type: text/plain`, the encoded length, and the encoded text as content |
| Router.OctetStream | app/server.go:111 | reads back as `200 OK` with `Content-Type: application/octet-stream`, the length of the contents, and the contents |
| RouterFacts.FixedRepliesExact | app/server.go:64-128 | the fixed responses are the byte strings the server writes |
| RouterFacts.EmptyNameReplyExact | app/server.go:118 | the empty-name answer is the byte string the server writes |
| RouterFacts.WriteFailedIsUnterminated | app/server.go:125 | the write-failure response has no blank line, so no message can be read from it |
| RouterFacts.ContentLengthAfter | app/server.go:78 | a `Content-Length` field after other fields is found and reads back as its number |
| RouterFacts.RootReply | app/server.go:63-65 | target "/" gets a bare `200 OK` whatever the method |
| RouterFacts.UnmatchedReply | app/server.go:132-134 | a target no arm matches gets a bare `404 Not Found` |
| RouterFacts.EchoReplies | app/server.go:67-88 | echo answers with the text between the second and third "/"; gzip-encoded with `Content-Encoding: gzip` exactly when an `accept-encoding` header contains "gzip", plain otherwise |
| RouterFacts.UserAgentReplies | app/server.go:89-93 | `/user-agent` answers with the `user-agent` header value, or an empty content with `Content-Length: 0` when the header is missing |
| RouterFacts.UserAgentMissing | app/server.go:90 | for headers built from lines with no `user-agent` name, `/user-agent` answers `200 OK` with empty text |
| RouterFacts.UserAgentIsLastLine | app/server.go:90 | for headers built from lines with a `user-agent` name, `/user-agent` answers `200 OK` with the value of the last line whose name lower-cases to `user-agent` |
| RouterFacts.FileReplies | app/server.go:95-130 | GET answers with the stored contents or 404; POST with an empty name answers 503 with its text; POST with a name asks to store the body; other methods get nothing |
| RouterFacts.ContentLengthMatchesPayload | app/server.go:62-135 | every reply the switch builds can be read back; every `200 OK` other than the answer to "/" has a `Content-Length` equal to its content's length, and the answer to "/" has no fields and no content |
| RouterFacts.PostThenGet | app/server.go:101-129 | after a POST stores a body under a name, a GET of the same target answers with exactly that body |
| Server.FileStore.WriteFile | app/server.go:122-127 | the write succeeds exactly when the name is writable; on success the file holds the data, otherwise nothing changes |
| Server.EmptyNameGetNotFound | app/server.go:101-107 | on a valid store, a GET whose file name is empty (reading the directory itself fails) answers exactly the bare 404 |
| Server.Respond | app/server.go:62-135 | writes the routed reply, nothing for a silent route, and for a store action writes the file and answers 201, or 503 without a blank line when the write fails |
| Server.HandleConnection | app/server.go:48-136 | a buffer that fails to parse ends as a panic and leaves the files alone; otherwise the connection ends as `Respond` says |
| Server.PostThenGet | app/server.go:101-129 | on the file store, a successful POST answers 201 and the following GET answers 200 with exactly the posted body; afterwards the store is valid and holds the body under the posted name, every other file unchanged |

## Left out

- `main`, the listening socket and the accept loop (`app/server.go:23-46`) are not modelled. They do I/O and start goroutines.
- The socket read into a 1024-byte buffer (`app/server.go:51-56`) is not modelled. The buffer is a parameter of any length. A read error, which closes the connection without an answer, is not modelled.
- `handleResponse` (`app/server.go:164-169`) and the `c.Write` calls are modelled by the bytes they would write. A write error is only logged, and it is not modelled.
- The gzip encoder (`app/server.go:73-76`) is a function parameter. The model does not capture DEFLATE or the gzip framing, so it proves nothing about decompression.
- `path.Join(*dir, filename)` and the `-directory` flag (`app/server.go:21,24,97`) are not modelled. The store is keyed by the name segment, so path cleaning (for example `..` segments) is not captured.
- `os.ReadFile` is a lookup in the store's map. `os.WriteFile` is a map update, which fails for names in the store's `unwritable` set. File permissions, partial writes and concurrent access by other connections are not modelled.
- The `fmt.Println` and `log.Println` output is not modelled.
- Strings are not restricted to chars below 256: the buffer, stored files and `gzip` results are taken to be octets by convention, so `Content-Length` counts chars, which equal bytes only under that convention.
- Text.ToLower: lower-cases ASCII letters only, because Go's Unicode case mapping of UTF-8 text is not modelled. Two effects follow. Go lower-cases U+0130 (capital I with dot above) to "i", so in Go a header named `Accept-Encodİng: gzip` is stored under `accept-encoding` and selects gzip, while in the model it does not. Go's `strings.ToLower` replaces invalid UTF-8 with U+FFFD, which can merge two distinct header names into one key; the model keeps them apart.
