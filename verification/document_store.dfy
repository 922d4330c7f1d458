/** The file-backed JSON documents, abstracted. A read of a document file
    either finds no file, fails (unreadable, or not JSON), parses to a value
    of the wrong shape (one without the list the handler dereferences), or
    yields a document. A write either succeeds
    or fails; the environment decides which, so it is an input.

    A route handler is a pure function from its request fields and the
    store to a `Reply`: the status it sends, whether it touched the store,
    and the document (if any) it handed to the write. */
module DocumentStore {
  import opened Basics

  /** The HTTP status a handler answers with. */
  datatype Status = Ok | Created | BadRequest | NotFound | Conflict | ServerError

  /** What reading a document file produced. `Malformed` is a file that
      parses to a truthy JSON value lacking the list the handler works on.
      For the students files, whose list is a field, that is for instance
      `{}`, `[]` or the other server's document; for the progress and
      certificate files of server.js, whose root is the list, it is a truthy
      value that is not an array, such as `{}` (there `[]` is `Found([])`).
      A file that parses to a falsy value (`null`, `false`, `0`, `""`)
      behaves as `Failed` in both servers. */
  datatype ReadResult<D> = Missing | Failed | Malformed | Found(doc: D) {
    /** No document can be taken from the read: it failed, or the value it
        gave has no list to dereference. */
    predicate Unusable() {
      Failed? || Malformed?
    }
  }

  /** The store as one request sees it: what a read of the document file
      gives, and whether a write to it would succeed. */
  datatype Store<D> = Store(read: ReadResult<D>, writeOk: bool)

  /** A handler's answer: its status, whether it read the store at all, and
      the document it asked the store to write (`None` when it wrote
      nothing). */
  datatype Reply<D> = Reply(status: Status, read: bool, save: Option<D>)

  /** The error `readJsonFile` raises in server.js for anything but a
      missing file. */
  datatype ReadError = ReadError

  /** The document a read that did not fail stands for: the stored one, or
      `default` when there is no file. */
  function Contents<D>(read: ReadResult<D>, default: D): D {
    if read.Found? then read.doc else default
  }

  /** `readJsonFile` of server.js, together with the handler's first use
      of the list it returns, both inside the handler's `try`: a missing
      file gives the caller's default value; a failed read is raised, and a
      value of the wrong shape makes the dereference throw, so neither is
      ever turned into the default. */
  function ReadOrDefault<D>(read: ReadResult<D>, default: D): (r: Result<D, ReadError>)
    ensures r.Failure? <==> read.Unusable()
    ensures read.Missing? ==> r == Success(default)
    ensures read.Found? ==> r == Success(read.doc)
  {
    match read
    case Missing => Success(default)
    case Failed => Failure(ReadError)
    case Malformed => Failure(ReadError)
    case Found(d) => Success(d)
  }

  /** What `readJsonFile` of certificate-server.js hands back: `null`, a
      truthy value without the expected list, or the document. */
  datatype Loaded<D> = NullValue | WrongShape | Document(doc: D)

  /** `readJsonFile` of certificate-server.js: a failed read, a missing file
      included, comes back as `null` and is never raised; whatever parses
      is handed back as it is, whatever its shape. */
  function ReadOrNull<D>(read: ReadResult<D>): (r: Loaded<D>)
    ensures r.NullValue? <==> read.Missing? || read.Failed?
    ensures r.WrongShape? <==> read.Malformed?
    ensures read.Found? ==> r == Document(read.doc)
  {
    match read
    case Found(d) => Document(d)
    case Malformed => WrongShape
    case _ => NullValue
  }

  /** The status a handler sends after handing a document to the write:
      `success` when the write went through, 500 when it did not (a raised
      error in server.js, a `false` from `writeJsonFile` in
      certificate-server.js). */
  function AfterWrite(writeOk: bool, success: Status): (s: Status)
    ensures writeOk ==> s == success
    ensures !writeOk ==> s == ServerError
  {
    if writeOk then success else ServerError
  }

  /** The two read helpers side by side: server.js keeps a missing file
      apart from a failed read, certificate-server.js cannot tell them
      apart; a value of the wrong shape is an error in server.js and is
      handed on in certificate-server.js. */
  lemma ReadPoliciesCompared<D>(default: D)
    ensures ReadOrDefault(Missing, default) != ReadOrDefault(Failed, default)
    ensures ReadOrNull<D>(Missing) == ReadOrNull<D>(Failed) == NullValue
    ensures ReadOrDefault(Malformed, default).Failure? && ReadOrNull<D>(Malformed) == WrongShape
    ensures forall d: D :: ReadOrDefault(Found(d), default) == Success(d) && ReadOrNull(Found(d)) == Document(d)
  {
  }
}
