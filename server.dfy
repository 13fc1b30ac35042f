/** `handleConnections` of app/server.go after the socket read: parse the
    buffer, run the switch, and carry out a file write against the served
    directory. */
module Server {
  import opened Text
  import opened Http
  import opened Router

  /** The served directory, seen as a map from file name to contents. */
  class FileStore {
    var files: map<string, string>
    /** Names the file system refuses to write (permissions, a missing
        directory): the model's stand-in for an `os.WriteFile` error. */
    const unwritable: set<string>

    /** The directory itself (file name "") is never a readable file:
        `os.ReadFile` of a directory fails. */
    ghost predicate Valid()
      reads this
    {
      "" !in files
    }

    constructor (initial: map<string, string>, refused: set<string>)
      requires "" !in initial
      ensures Valid()
      ensures files == initial && unwritable == refused
    {
      files := initial;
      unwritable := refused;
    }

    /** `os.WriteFile(path, data, 0644)`: creates or truncates the named
        file, or fails and leaves the directory as it was. */
    method WriteFile(name: string, data: string) returns (ok: bool)
      requires Valid() && name != ""
      modifies this
      ensures Valid()
      ensures ok <==> name !in unwritable
      ensures files == if ok then old(files)[name := data] else old(files)
    {
      ok := name !in unwritable;
      if ok {
        files := files[name := data];
      }
    }
  }

  /** A GET whose file name is empty reads the directory itself, which
      fails, so it answers 404. */
  lemma EmptyNameGetNotFound(store: FileStore, req: Request, gzip: string -> string)
    requires store.Valid()
    requires req.verb == "GET" && "/files/" <= req.target && Before(req.target[7..], "/") == ""
    ensures Route(req, store.files, gzip) == Reply(Bare(StatusNotFound, ""))
  {
    assert "/files/" == "/" + "files" + "/";
  }

  /** What one connection ends with: a panic inside `ParseRequest`, closing
      without writing, or the bytes written before closing. */
  datatype Outcome = Panicked(error: ParseError) | Closed | Wrote(bytes: string)

  /** Carries out the switch for one parsed request: a reply is written as
      it is; a `Store` action writes the file and answers 201, or the
      unterminated 503 when the write fails. */
  method Respond(store: FileStore, req: Request, gzip: string -> string) returns (out: Outcome)
    requires store.Valid()
    modifies store
    ensures store.Valid()
    ensures match Route(req, old(store.files), gzip)
      case Reply(w) => out == Wrote(w) && store.files == old(store.files)
      case Silent => out == Closed && store.files == old(store.files)
      case Store(name, data) =>
        if name in store.unwritable then out == Wrote(WriteFailedReply) && store.files == old(store.files)
        else out == Wrote(Bare(StatusCreated, "")) && store.files == old(store.files)[name := data]
  {
    match Route(req, store.files, gzip)
    case Reply(w) =>
      out := Wrote(w);
    case Silent =>
      out := Closed;
    case Store(name, data) =>
      var ok := store.WriteFile(name, data);
      out := if ok then Wrote(Bare(StatusCreated, "")) else Wrote(WriteFailedReply);
  }

  /** One connection, from the bytes read to what is written back. */
  method HandleConnection(store: FileStore, buffer: string, gzip: string -> string) returns (out: Outcome)
    requires store.Valid()
    modifies store
    ensures store.Valid()
    ensures Parse(buffer).Err? ==> out == Panicked(Parse(buffer).error) && store.files == old(store.files)
    ensures Parse(buffer).Ok? ==>
      match Route(Parse(buffer).value, old(store.files), gzip)
      case Reply(w) => out == Wrote(w) && store.files == old(store.files)
      case Silent => out == Closed && store.files == old(store.files)
      case Store(name, data) =>
        if name in store.unwritable then out == Wrote(WriteFailedReply) && store.files == old(store.files)
        else out == Wrote(Bare(StatusCreated, "")) && store.files == old(store.files)[name := data]
  {
    var parsed := ParseRequest(buffer);
    match parsed
    case Err(e) =>
      out := Panicked(e);
    case Ok(req) =>
      out := Respond(store, req, gzip);
  }

  /** A POST that stores a body, followed by a GET of the same file,
      answers 201 and then 200 with exactly that body. */
  method PostThenGet(store: FileStore, post: Request, get: Request, gzip: string -> string)
    returns (first: Outcome, second: Outcome)
    requires store.Valid()
    requires post.verb == "POST" && get.verb == "GET" && get.target == post.target
    requires Route(post, store.files, gzip).Store?
    requires Route(post, store.files, gzip).name !in store.unwritable
    modifies store
    ensures store.Valid()
    ensures store.files == old(store.files)[Route(post, old(store.files), gzip).name := post.body]
    ensures first == Wrote(Bare(StatusCreated, ""))
    ensures second == Wrote(OctetStream(post.body))
  {
    ghost var name := Route(post, store.files, gzip).name;
    first := Respond(store, post, gzip);
    assert store.files == old(store.files)[name := post.body];
    second := Respond(store, get, gzip);
  }
}
