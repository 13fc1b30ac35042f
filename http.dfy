/** The request type and `ParseRequest` of app/server.go. Where Go panics
    on an index out of range, the model returns an error instead. */
module Http {
  import opened Text

  datatype Result<+T, +E> = Ok(value: T) | Err(error: E)

  /** A parsed request. Header names are lower-cased; a later line with the
      same lower-cased name replaces an earlier one. */
  datatype Request = Request(verb: string, target: string, headers: map<string, string>, body: string)

  /** The three places where Go's `ParseRequest` indexes past the end of a split. */
  datatype ParseError =
    | NoHeaderEnd      // no CRLF CRLF in the buffer: `req_parts[1]`
    | NoTarget         // no space in the request line: `req_line_1[1]`
    | MalformedHeader  // a header line without ": ": `h[1]`

  const FieldSep: string := ": "

  /** A header line that Go can split into a name and a value. */
  predicate IsFieldLine(line: string)
  {
    |Split(line, FieldSep)| >= 2
  }

  /** The map key Go takes from a header line: the text before the first
      ": ", lower-cased. */
  function FieldName(line: string): (name: string)
    ensures ToLower(name) == name
  {
    ToLowerIdempotent(Split(line, FieldSep)[0]);
    ToLower(Split(line, FieldSep)[0])
  }

  /** The map value Go takes from a header line: the second ": "-separated piece. */
  function FieldValue(line: string): string
    requires IsFieldLine(line)
  {
    Split(line, FieldSep)[1]
  }

  predicate AllFieldLines(lines: seq<string>)
  {
    forall k :: 0 <= k < |lines| ==> IsFieldLine(lines[k])
  }

  /** The headers map after storing the lines one by one, in order. */
  function HeaderMap(lines: seq<string>): (m: map<string, string>)
    requires AllFieldLines(lines)
    ensures forall k :: 0 <= k < |lines| ==> FieldName(lines[k]) in m
    ensures forall name :: name in m ==> ToLower(name) == name
  {
    if lines == [] then map[]
    else
      var last := lines[|lines| - 1];
      HeaderMap(lines[..|lines| - 1])[FieldName(last) := FieldValue(last)]
  }

  /** The request `ParseRequest` builds from a raw buffer, or the place it
      would panic. */
  function Parse(raw: string): (r: Result<Request, ParseError>)
    ensures r.Ok? ==> !Contains(r.value.verb, " ") && !Contains(r.value.target, " ")
    ensures r.Ok? ==> forall name :: name in r.value.headers ==> ToLower(name) == name
    ensures r.Ok? ==> !Contains(r.value.body, CRLFCRLF)
  {
    var parts := Split(raw, CRLFCRLF);
    if |parts| < 2 then Err(NoHeaderEnd)
    else
      var body := TrimNul(parts[1]);
      SplitPiecesHaveNoSeparator(raw, CRLFCRLF, 1);
      TrimNulKeepsAbsence(parts[1], CRLFCRLF);
      var lines := Split(parts[0], CRLF);
      var tokens := Split(lines[0], " ");
      if |tokens| < 2 then Err(NoTarget)
      else
        SplitPiecesHaveNoSeparator(lines[0], " ", 0);
        SplitPiecesHaveNoSeparator(lines[0], " ", 1);
        var fields := lines[1..];
        if !AllFieldLines(fields) then Err(MalformedHeader)
        else Ok(Request(tokens[0], tokens[1], HeaderMap(fields), body))
  }

  /** The `for … range raw_headers` loop of `ParseRequest`: stores each
      header line in the map under its lower-cased name, or stops at the
      first line without ": ". */
  method FillHeaders(fields: seq<string>) returns (r: Result<map<string, string>, ParseError>)
    ensures AllFieldLines(fields) ==> r == Ok(HeaderMap(fields))
    ensures !AllFieldLines(fields) ==> r == Err(MalformedHeader)
  {
    var headers: map<string, string> := map[];
    var i := 0;
    while i < |fields|
      invariant 0 <= i <= |fields|
      invariant AllFieldLines(fields[..i])
      invariant headers == HeaderMap(fields[..i])
    {
      var h := Split(fields[i], FieldSep);
      if |h| < 2 {
        assert !IsFieldLine(fields[i]);
        return Err(MalformedHeader);
      }
      headers := headers[ToLower(h[0]) := h[1]];
      assert fields[..i + 1][..i] == fields[..i];
      i := i + 1;
    }
    assert fields[..i] == fields;
    r := Ok(headers);
  }

  /** `ParseRequest`: splits the buffer, takes method and target from the
      request line, then fills the headers map. */
  method ParseRequest(b: string) returns (r: Result<Request, ParseError>)
    ensures r == Parse(b)
  {
    var parts := Split(b, CRLFCRLF);
    if |parts| < 2 {
      return Err(NoHeaderEnd);
    }
    var body := TrimNul(parts[1]);
    var lines := Split(parts[0], CRLF);
    var tokens := Split(lines[0], " ");
    if |tokens| < 2 {
      return Err(NoTarget);
    }
    var headers := FillHeaders(lines[1..]);
    match headers
    case Err(e) =>
      r := Err(e);
    case Ok(h) =>
      r := Ok(Request(tokens[0], tokens[1], h, body));
  }
}

/** What `ParseRequest` promises about the requests it returns and the
    buffers it rejects. */
module HttpFacts {
  import opened Text
  import opened Http

  /** The head of the message: everything before the first CRLF CRLF. */
  function Head(raw: string): string
  {
    Before(raw, CRLFCRLF)
  }

  /** The request line: the head up to its first CRLF. */
  function RequestLine(raw: string): string
  {
    Before(Head(raw), CRLF)
  }

  /** A header line, as Go reads it, is one that has a ": " in it. */
  lemma FieldLineHasSeparator(line: string)
    ensures IsFieldLine(line) <==> Contains(line, FieldSep)
    ensures IsFieldLine(line) ==>
      FieldName(line) == ToLower(Before(line, FieldSep)) &&
      FieldValue(line) == Before(After(line, FieldSep), FieldSep)
  {
    SplitSecondPiece(line, FieldSep);
  }

  /** `Parse` spelled out in terms of the head, the request line and the
      header lines. */
  lemma ParseUnfolded(raw: string)
    ensures Contains(raw, CRLFCRLF) <==> |Split(raw, CRLFCRLF)| >= 2
    ensures Contains(raw, CRLFCRLF) ==>
      && Split(raw, CRLFCRLF)[0] == Head(raw)
      && Split(raw, CRLFCRLF)[1] == Before(After(raw, CRLFCRLF), CRLFCRLF)
    ensures Split(Head(raw), CRLF)[0] == RequestLine(raw)
    ensures Contains(RequestLine(raw), " ") <==> |Split(RequestLine(raw), " ")| >= 2
    ensures Contains(RequestLine(raw), " ") ==>
      && Split(RequestLine(raw), " ")[0] == Before(RequestLine(raw), " ")
      && Split(RequestLine(raw), " ")[1] == Before(After(RequestLine(raw), " "), " ")
  {
    SplitSecondPiece(raw, CRLFCRLF);
    SplitFirstIsBefore(raw, CRLFCRLF);
    SplitFirstIsBefore(Head(raw), CRLF);
    SplitSecondPiece(RequestLine(raw), " ");
    SplitFirstIsBefore(RequestLine(raw), " ");
  }

  /** Some header line of the head has no ": ". */
  predicate HasMalformedField(raw: string)
  {
    exists k :: 1 <= k < |Split(Head(raw), CRLF)| && !Contains(Split(Head(raw), CRLF)[k], FieldSep)
  }

  /** `ParseRequest` fails exactly when the buffer has no CRLF CRLF, when the
      request line has no space, or when a header line has no ": ". The
      failures are tried in that order. */
  lemma ParseFailsExactly(raw: string)
    ensures Parse(raw) == Err(NoHeaderEnd) <==> !Contains(raw, CRLFCRLF)
    ensures Parse(raw) == Err(NoTarget) <==>
      Contains(raw, CRLFCRLF) && !Contains(RequestLine(raw), " ")
    ensures Parse(raw) == Err(MalformedHeader) <==>
      Contains(raw, CRLFCRLF) && Contains(RequestLine(raw), " ") && HasMalformedField(raw)
  {
    ParseUnfolded(raw);
    var lines := Split(Head(raw), CRLF);
    assert AllFieldLines(lines[1..]) <==> !HasMalformedField(raw) by {
      if !AllFieldLines(lines[1..]) {
        var k :| 0 <= k < |lines[1..]| && !IsFieldLine(lines[1..][k]);
        FieldLineHasSeparator(lines[k + 1]);
        assert !Contains(lines[k + 1], FieldSep);
      }
      if HasMalformedField(raw) {
        var k :| 1 <= k < |lines| && !Contains(lines[k], FieldSep);
        FieldLineHasSeparator(lines[k]);
        assert !IsFieldLine(lines[1..][k - 1]);
      }
    }
  }

  /** Method and target are the first and second space-separated tokens of
      the request line. */
  lemma ParsedRequestLine(raw: string)
    requires Parse(raw).Ok?
    ensures Contains(RequestLine(raw), " ")
    ensures Parse(raw).value.verb == Before(RequestLine(raw), " ")
    ensures Parse(raw).value.target == Before(After(RequestLine(raw), " "), " ")
  {
    ParseUnfolded(raw);
  }

  /** The body is the text between the first and the second CRLF CRLF with
      its leading and trailing NULs removed; it neither starts nor ends with
      NUL and holds no CRLF CRLF. */
  lemma ParsedBody(raw: string)
    requires Parse(raw).Ok?
    ensures Contains(raw, CRLFCRLF)
    ensures Parse(raw).value.body == TrimNul(Before(After(raw, CRLFCRLF), CRLFCRLF))
    ensures !Contains(Parse(raw).value.body, CRLFCRLF)
    ensures var b := Parse(raw).value.body; b == [] || (b[0] != NUL && b[|b| - 1] != NUL)
  {
    ParseUnfolded(raw);
    var rest := After(raw, CRLFCRLF);
    var segment := Before(rest, CRLFCRLF);
    SplitFirstIsBefore(rest, CRLFCRLF);
    SplitFirstHasNoSeparator(rest, CRLFCRLF);
    TrimNulKeepsAbsence(segment, CRLFCRLF);
  }

  /** The headers map is built from the lines of the head after the request line. */
  lemma ParsedHeaders(raw: string)
    requires Parse(raw).Ok?
    ensures AllFieldLines(Split(Head(raw), CRLF)[1..])
    ensures Parse(raw).value.headers == HeaderMap(Split(Head(raw), CRLF)[1..])
  {
    ParseUnfolded(raw);
  }

  /** A name is a key of the map exactly when some line lower-cases to it,
      and every key is in lower case. */
  lemma {:induction false} HeaderMapKeys(lines: seq<string>, name: string)
    requires AllFieldLines(lines)
    ensures name in HeaderMap(lines) <==> exists j :: 0 <= j < |lines| && FieldName(lines[j]) == name
    ensures name in HeaderMap(lines) ==> ToLower(name) == name
    decreases |lines|
  {
    if lines != [] {
      var init := lines[..|lines| - 1];
      assert AllFieldLines(init);
      HeaderMapKeys(init, name);
      if exists j :: 0 <= j < |lines| && FieldName(lines[j]) == name {
        var j :| 0 <= j < |lines| && FieldName(lines[j]) == name;
        if j < |lines| - 1 {
          assert FieldName(init[j]) == name;
        }
      }
      forall j | 0 <= j < |init| && FieldName(init[j]) == name
        ensures FieldName(lines[j]) == name
      {
        assert init[j] == lines[j];
      }
    }
  }

  /** When several lines share a lower-cased name, the map holds the value
      of the last of them. */
  lemma {:induction false} HeaderMapLastWins(lines: seq<string>, j: nat)
    requires AllFieldLines(lines) && j < |lines|
    requires forall j' :: j < j' < |lines| ==> FieldName(lines[j']) != FieldName(lines[j])
    ensures FieldName(lines[j]) in HeaderMap(lines)
    ensures HeaderMap(lines)[FieldName(lines[j])] == FieldValue(lines[j])
    decreases |lines|
  {
    if j < |lines| - 1 {
      var init := lines[..|lines| - 1];
      assert AllFieldLines(init);
      assert init[j] == lines[j];
      forall j' | j < j' < |init| ensures FieldName(init[j']) != FieldName(init[j]) {
        assert init[j'] == lines[j'];
      }
      HeaderMapLastWins(init, j);
    }
  }

  /** Two header lines that differ at most in the letter case of their names. */
  predicate SameFieldIgnoringNameCase(a: string, b: string)
  {
    && Contains(a, FieldSep) && Contains(b, FieldSep)
    && SameIgnoringCase(Before(a, FieldSep), Before(b, FieldSep))
    && After(a, FieldSep) == After(b, FieldSep)
  }

  /** Field names are case-insensitive (section 5.1 of RFC 9110): two lines
      that differ only in the case of their names are stored under the same
      key with the same value. */
  lemma HeaderNameCaseInsensitive(a: string, b: string)
    requires SameFieldIgnoringNameCase(a, b)
    ensures IsFieldLine(a) && IsFieldLine(b)
    ensures FieldName(a) == FieldName(b) && FieldValue(a) == FieldValue(b)
  {
    FieldLineHasSeparator(a);
    FieldLineHasSeparator(b);
    ToLowerIgnoresCase(Before(a, FieldSep), Before(b, FieldSep));
  }

  /** Header lists that differ only in the case of their names build the
      same map. */
  lemma {:induction false} HeaderMapIgnoresNameCase(xs: seq<string>, ys: seq<string>)
    requires |xs| == |ys|
    requires forall k :: 0 <= k < |xs| ==> SameFieldIgnoringNameCase(xs[k], ys[k])
    ensures AllFieldLines(xs) && AllFieldLines(ys)
    ensures HeaderMap(xs) == HeaderMap(ys)
    decreases |xs|
  {
    forall k | 0 <= k < |xs| ensures IsFieldLine(xs[k]) && IsFieldLine(ys[k]) {
      HeaderNameCaseInsensitive(xs[k], ys[k]);
    }
    if xs != [] {
      var n := |xs| - 1;
      HeaderMapIgnoresNameCase(xs[..n], ys[..n]);
      HeaderNameCaseInsensitive(xs[n], ys[n]);
    }
  }

  /** Two buffers that parse, and whose header lines differ only in the case
      of their names, give the same headers map. */
  lemma ParseIgnoresNameCase(r1: string, r2: string)
    requires Parse(r1).Ok? && Parse(r2).Ok?
    requires |Split(Head(r1), CRLF)| == |Split(Head(r2), CRLF)|
    requires forall k :: 1 <= k < |Split(Head(r1), CRLF)| ==>
      SameFieldIgnoringNameCase(Split(Head(r1), CRLF)[k], Split(Head(r2), CRLF)[k])
    ensures Parse(r1).value.headers == Parse(r2).value.headers
  {
    ParsedHeaders(r1);
    ParsedHeaders(r2);
    var xs := Split(Head(r1), CRLF)[1..];
    var ys := Split(Head(r2), CRLF)[1..];
    forall k | 0 <= k < |xs| ensures SameFieldIgnoringNameCase(xs[k], ys[k]) {
      assert xs[k] == Split(Head(r1), CRLF)[k + 1];
      assert ys[k] == Split(Head(r2), CRLF)[k + 1];
    }
    HeaderMapIgnoresNameCase(xs, ys);
  }
}
