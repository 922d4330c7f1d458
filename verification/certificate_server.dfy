/** The route handlers of certificate-server.js. This server collapses every
    failed read (a missing file included) into `null`, signals a failed
    write with `false` instead of raising, rejects an already-registered
    student ID with 409, and stores whatever certificates array the client
    sends, without looking at what was stored before. */
module CertificateServer {
  import opened Basics
  import opened Collections
  import opened DocumentStore

  /** A JSON value as a request body carries it. */
  datatype Json =
    | Null
    | Bool(b: bool)
    | Number(n: int)
    | String(s: string)
    | Array(items: seq<Json>)
    | Object(members: seq<(string, Json)>)

  /** JavaScript truthiness of a JSON value: `null`, `false`, `0` and `""`
      are falsy, every array and object is truthy. */
  predicate Truthy(v: Json) {
    match v
    case Null => false
    case Bool(b) => b
    case Number(n) => n != 0
    case String(s) => s != ""
    case Array(_) => true
    case Object(_) => true
  }

  /** The students file: `{ students: [...] }`. */
  datatype StudentList = StudentList(students: seq<string>)

  /** The certificates file: `{ certificates: [...] }`. */
  datatype CertificatesDoc = CertificatesDoc(certificates: seq<Json>)

  /** POST /add-student: 400 without an ID; the stored list, or an empty one
      when the read gave `null`, gets the ID appended, unless it is already
      there, which is a 409 with nothing written. A stored value without a
      `students` array makes `data.students.includes` throw, which Express
      answers with 500, before anything is written. */
  function AddStudent(studentId: Option<string>, store: Store<StudentList>): (r: Reply<StudentList>)
    ensures r.status == BadRequest <==> !Supplied(studentId)
    ensures r.status == BadRequest ==> !r.read && r.save.None?
    ensures r.status != BadRequest ==> r.read
    ensures r.status != BadRequest && store.read.Malformed? ==> r.status == ServerError && r.save.None?
    ensures r.status != BadRequest && !store.read.Malformed? ==>
              var ids := if store.read.Found? then store.read.doc.students else [];
              && (r.status == Conflict <==> studentId.value in ids)
              && (r.status == Conflict ==> r.save.None?)
              && (r.status != Conflict ==>
                    && r.save == Some(StudentList(ids + [studentId.value]))
                    && (r.status == Created <==> store.writeOk))
    ensures r.status in {Created, BadRequest, Conflict, ServerError}
  {
    if !Supplied(studentId) then
      Reply(BadRequest, false, None)
    else
      match ReadOrNull(store.read)
      case WrongShape => Reply(ServerError, true, None)
      case NullValue => Register(StudentList([]), studentId.value, store.writeOk)
      case Document(data) => Register(data, studentId.value, store.writeOk)
  }

  /** The part of /add-student after the read: the 409 check, the push and
      the write of `data`. */
  function Register(data: StudentList, id: string, writeOk: bool): (r: Reply<StudentList>)
    ensures r.read
    ensures r.status == Conflict <==> id in data.students
    ensures r.status == Conflict ==> r.save.None?
    ensures r.status != Conflict ==>
              && r.save == Some(StudentList(data.students + [id]))
              && (r.status == Created <==> writeOk)
    ensures r.status in {Created, Conflict, ServerError}
  {
    if id in data.students then
      Reply(Conflict, true, None)
    else
      Reply(AfterWrite(writeOk, Created), true, Some(data.(students := data.students + [id])))
  }

  /** The rejecting insert never introduces a duplicate: what it writes
      grows the list by exactly one and holds distinct IDs when the stored
      ones were. */
  lemma AddStudentKeepsIdsUnique(studentId: Option<string>, store: Store<StudentList>)
    requires store.read.Found? ==> UniqueKeys(store.read.doc.students, Itself)
    ensures var r := AddStudent(studentId, store);
            r.save.Some? ==>
              var before := if store.read.Found? then store.read.doc.students else [];
              && |r.save.value.students| == |before| + 1
              && UniqueKeys(r.save.value.students, Itself)
  {
  }

  /** A read that fails (an unreadable file, or one that is not JSON) is not
      told apart from a missing file: /add-student then writes a list
      holding only the new ID over whatever was stored. */
  lemma AddStudentOverwritesUnreadableFile(id: string, writeOk: bool)
    requires id != ""
    ensures AddStudent(Some(id), Store(Failed, writeOk)).save == Some(StudentList([id]))
    ensures AddStudent(Some(id), Store(Failed, writeOk)) == AddStudent(Some(id), Store(Missing, writeOk))
  {
    assert ReadOrNull<StudentList>(Failed) == ReadOrNull<StudentList>(Missing) == NullValue;
    assert [] + [id] == [id];
  }

  /** DELETE /delete-student: 400 without an ID, 500 when the read gave
      `null`, and 500 from Express when the stored value has no `students`
      array to filter; otherwise every occurrence of the ID is filtered out, an
      unchanged length is a 404 with nothing written, and a shorter list is
      written in place of the old one. */
  function DeleteStudent(studentId: Option<string>, store: Store<StudentList>): (r: Reply<StudentList>)
    ensures r.status == BadRequest <==> !Supplied(studentId)
    ensures r.status == BadRequest ==> !r.read && r.save.None?
    ensures r.status != BadRequest ==> r.read
    ensures r.status != BadRequest && !store.read.Found? ==> r.status == ServerError && r.save.None?
    ensures r.status != BadRequest && store.read.Found? ==>
              var ids := store.read.doc.students;
              && (r.status == NotFound <==> studentId.value !in ids)
              && (r.status == NotFound ==> r.save.None?)
              && (r.status != NotFound ==>
                    && r.save.Some?
                    && r.save.value.students == RemoveKey(ids, Itself, studentId.value)
                    && |r.save.value.students| < |ids|
                    && (forall x :: multiset(r.save.value.students)[x] == if x == studentId.value then 0 else multiset(ids)[x])
                    && (r.status == Ok <==> store.writeOk))
    ensures r.status in {Ok, BadRequest, NotFound, ServerError}
  {
    if !Supplied(studentId) then
      Reply(BadRequest, false, None)
    else
      match ReadOrNull(store.read)
      case NullValue => Reply(ServerError, true, None)
      case WrongShape => Reply(ServerError, true, None)
      case Document(data) =>
        var updated := RemoveKey(data.students, Itself, studentId.value);
        assert HasKey(data.students, Itself, studentId.value) <==> studentId.value in data.students;
        if |updated| == |data.students| then Reply(NotFound, true, None)
        else Reply(AfterWrite(store.writeOk, Ok), true, Some(data.(students := updated)))
  }

  /** The shared body of /add-certificate and /delete-certificate: 400
      unless `certificates` is an array, otherwise `{ certificates }` is
      written as sent, and the handler answers `success` if the write went
      through. The stored document is never read, so nothing is merged. */
  function ReplaceCertificates(certificates: Option<Json>, store: Store<CertificatesDoc>, success: Status)
    : (r: Reply<CertificatesDoc>)
    requires success != BadRequest && success != ServerError
    ensures r.status == BadRequest <==> certificates.None? || !certificates.value.Array?
    ensures !r.read
    ensures r.status == BadRequest ==> r.save.None?
    ensures r.status != BadRequest ==>
              && r.save == Some(CertificatesDoc(certificates.value.items))
              && (r.status == success <==> store.writeOk)
    ensures r.status in {success, BadRequest, ServerError}
  {
    if certificates.None? || !Truthy(certificates.value) || !certificates.value.Array? then
      Reply(BadRequest, false, None)
    else
      Reply(AfterWrite(store.writeOk, success), false, Some(CertificatesDoc(certificates.value.items)))
  }

  /** POST /add-certificate: 201 once the array is written. */
  function AddCertificate(certificates: Option<Json>, store: Store<CertificatesDoc>): (r: Reply<CertificatesDoc>)
    ensures r.status == BadRequest <==> certificates.None? || !certificates.value.Array?
    ensures !r.read
    ensures r.status == BadRequest ==> r.save.None?
    ensures r.status != BadRequest ==>
              && r.save == Some(CertificatesDoc(certificates.value.items))
              && (r.status == Created <==> store.writeOk)
    ensures r.status in {Created, BadRequest, ServerError}
  {
    ReplaceCertificates(certificates, store, Created)
  }

  /** DELETE /delete-certificate: the client sends the list it wants kept,
      and the handler writes it as sent, answering 200. */
  function DeleteCertificate(certificates: Option<Json>, store: Store<CertificatesDoc>): (r: Reply<CertificatesDoc>)
    ensures r.status == BadRequest <==> certificates.None? || !certificates.value.Array?
    ensures !r.read
    ensures r.status == BadRequest ==> r.save.None?
    ensures r.status != BadRequest ==>
              && r.save == Some(CertificatesDoc(certificates.value.items))
              && (r.status == Ok <==> store.writeOk)
    ensures r.status in {Ok, BadRequest, ServerError}
  {
    ReplaceCertificates(certificates, store, Ok)
  }

  /** What is stored before has no bearing on either certificate endpoint. */
  lemma CertificateWritesIgnoreStoredDocument(certificates: Option<Json>, s1: Store<CertificatesDoc>, s2: Store<CertificatesDoc>)
    requires s1.writeOk == s2.writeOk
    ensures AddCertificate(certificates, s1) == AddCertificate(certificates, s2)
    ensures DeleteCertificate(certificates, s1) == DeleteCertificate(certificates, s2)
  {
  }
}
