/** HTTP/1.1 message framing (section 2.1 of RFC 9112): a start line, field
    lines each ended by CRLF, an empty line, then the content. The server
    writes its responses as literal strings; this module is the reference
    reader the responses are proved against. */
module Wire {
  import opened Text

  datatype Message = Message(startLine: string, fields: seq<string>, payload: string)

  /** Start line and field lines are non-empty and hold no CR or LF. */
  predicate WellFormed(m: Message)
  {
    PlainLines([m.startLine] + m.fields)
  }

  /** Writes a message: lines joined by CRLF, a blank line, the content. */
  function Serialize(m: Message): string
  {
    Join([m.startLine] + m.fields, CRLF) + CRLFCRLF + m.payload
  }

  /** Reads a message: the head ends at the first CRLF CRLF and is split into
      lines on CRLF; the content is everything after that blank line. */
  function ReadMessage(w: string): Option<Message>
  {
    match Index(w, CRLFCRLF)
    case None => None
    case Some(i) =>
      var lines := Split(w[..i], CRLF);
      Some(Message(lines[0], lines[1..], w[i + |CRLFCRLF|..]))
  }

  /** Reading a written message gives back its start line, fields and content. */
  lemma ReadSerialize(m: Message)
    requires WellFormed(m)
    ensures ReadMessage(Serialize(m)) == Some(m)
  {
    var lines := [m.startLine] + m.fields;
    var h := Join(lines, CRLF);
    BlankLineEndsHead(lines, m.payload);
    var w := Serialize(m);
    assert w[..|h|] == h;
    assert w[|h| + 4..] == m.payload;
    SplitJoinLines(lines);
    assert lines[1..] == m.fields;
  }

  /** Reading is injective: a text that reads as a message is exactly that
      message written out, so a read-back fixes every byte of a response. */
  lemma ReadIsSerialized(w: string, m: Message)
    requires ReadMessage(w) == Some(m)
    ensures w == Serialize(m)
  {
    var i := Index(w, CRLFCRLF).value;
    var lines := Split(w[..i], CRLF);
    JoinSplit(w[..i], CRLF);
    assert [m.startLine] + m.fields == lines;
    assert w[i..i + 4] == CRLFCRLF;
    assert w == w[..i] + w[i..i + 4] + w[i + 4..];
  }

  /** A message with two or three field lines, written out. */
  lemma SerializeLines(m: Message)
    requires 2 <= |m.fields| <= 3
    ensures |m.fields| == 2 ==>
      Serialize(m) == m.startLine + CRLF + m.fields[0] + CRLF + m.fields[1] + CRLFCRLF + m.payload
    ensures |m.fields| == 3 ==>
      Serialize(m) == m.startLine + CRLF + m.fields[0] + CRLF + m.fields[1] + CRLF + m.fields[2] + CRLFCRLF + m.payload
  {
    var lines := [m.startLine] + m.fields;
    var f := m.fields;
    assert lines[1..] == f;
    assert Join(lines, CRLF) == m.startLine + CRLF + Join(f, CRLF);
    assert Join(f, CRLF) == f[0] + CRLF + Join(f[1..], CRLF);
    if |f| == 2 {
      assert Join(f[1..], CRLF) == f[1];
    } else {
      assert Join(f[1..], CRLF) == f[1] + CRLF + Join(f[2..], CRLF);
      assert Join(f[2..], CRLF) == f[2];
    }
  }

  /** A message with two field lines reads back as its parts. */
  lemma ReadTwoFields(start: string, f0: string, f1: string, payload: string)
    requires PlainLines([start, f0, f1])
    ensures ReadMessage(start + CRLF + f0 + CRLF + f1 + CRLFCRLF + payload) ==
      Some(Message(start, [f0, f1], payload))
  {
    var m := Message(start, [f0, f1], payload);
    assert [start] + [f0, f1] == [start, f0, f1];
    SerializeLines(m);
    ReadSerialize(m);
  }

  /** A message with three field lines reads back as its parts. */
  lemma ReadThreeFields(start: string, f0: string, f1: string, f2: string, payload: string)
    requires PlainLines([start, f0, f1, f2])
    ensures ReadMessage(start + CRLF + f0 + CRLF + f1 + CRLF + f2 + CRLFCRLF + payload) ==
      Some(Message(start, [f0, f1, f2], payload))
  {
    var m := Message(start, [f0, f1, f2], payload);
    assert [start] + [f0, f1, f2] == [start, f0, f1, f2];
    SerializeLines(m);
    ReadSerialize(m);
  }

  const ContentLengthName: string := "Content-Length: "

  /** The value of the first `Content-Length` field, read as a decimal number. */
  function ContentLength(fields: seq<string>): Option<nat>
  {
    if fields == [] then None
    else if ContentLengthName <= fields[0] then ParseDecimal(fields[0][|ContentLengthName|..])
    else ContentLength(fields[1..])
  }
}
