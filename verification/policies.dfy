/** The two student-registry servers side by side. They keep the same kind
    of list, but differ in what counts as a valid ID, in what a repeated ID
    does, and in what a failed or missing read does. */
module Policies {
  import opened Basics
  import opened DocumentStore
  import opened JsText
  import opened Collections
  import S = Server
  import C = CertificateServer

  /** The same list of IDs, as each server stores it. */
  function Stored(read: ReadResult<seq<string>>): (r: (ReadResult<S.StudentsDoc>, ReadResult<C.StudentList>))
    ensures read.Found? <==> r.0.Found? && r.1.Found?
    ensures read.Found? ==> r.0.doc.validStudentIds == read.doc && r.1.doc.students == read.doc
    ensures read.Missing? <==> r.0.Missing? && r.1.Missing?
  {
    match read
    case Missing => (Missing, Missing)
    case Failed => (Failed, Failed)
    case Malformed => (Malformed, Malformed)
    case Found(ids) => (Found(S.StudentsDoc(ids)), Found(C.StudentList(ids)))
  }

  /** A repeated ID: server.js answers 200 and writes nothing,
      certificate-server.js answers 409 and writes nothing. */
  lemma AddStudentRepeatedId(id: string, ids: seq<string>, writeOk: bool)
    requires S.ValidStudentId(Some(id))
    requires id in ids
    ensures S.AddStudent(Some(id), Store(Found(S.StudentsDoc(ids)), writeOk)) == Reply(Ok, true, None)
    ensures C.AddStudent(Some(id), Store(Found(C.StudentList(ids)), writeOk)) == Reply(Conflict, true, None)
  {
  }

  /** A new valid ID: both servers write the stored list with the ID
      appended once; they differ only in the success code. */
  lemma AddStudentNewId(id: string, read: ReadResult<seq<string>>, writeOk: bool)
    requires S.ValidStudentId(Some(id))
    requires !read.Unusable()
    requires id !in (if read.Found? then read.doc else [])
    ensures var ids := if read.Found? then read.doc else [];
            && S.AddStudent(Some(id), Store(Stored(read).0, writeOk)) == Reply(AfterWrite(writeOk, Ok), true, Some(S.StudentsDoc(ids + [id])))
            && C.AddStudent(Some(id), Store(Stored(read).1, writeOk)) == Reply(AfterWrite(writeOk, Created), true, Some(C.StudentList(ids + [id])))
  {
  }

  /** A failed read (an unreadable file, or one that is not JSON): server.js
      answers 500 and writes nothing; certificate-server.js falls back to an
      empty list and writes a list holding only the new ID over the file. */
  lemma AddStudentFailedRead(id: string, writeOk: bool)
    requires S.ValidStudentId(Some(id))
    ensures S.AddStudent(Some(id), Store(Failed, writeOk)) == Reply(ServerError, true, None)
    ensures C.AddStudent(Some(id), Store(Failed, writeOk)).save == Some(C.StudentList([id]))
  {
    assert [] + [id] == [id];
  }

  /** A file that parses to a value without the expected list: both
      servers answer 500 and write nothing, server.js from its `catch`,
      certificate-server.js from Express's handling of the thrown error. */
  lemma AddStudentMalformedFile(id: string, writeOk: bool)
    requires S.ValidStudentId(Some(id))
    ensures S.AddStudent(Some(id), Store(Malformed, writeOk)) == Reply(ServerError, true, None)
    ensures C.AddStudent(Some(id), Store(Malformed, writeOk)) == Reply(ServerError, true, None)
  {
  }

  /** An ID with a character outside `[a-zA-Z0-9]` is refused by server.js
      before it reads anything, but certificate-server.js only asks for a
      non-empty ID. */
  lemma AddStudentNonAlphanumericId(id: string, i: int, store: Store<S.StudentsDoc>, store': Store<C.StudentList>)
    requires 0 <= i < |id| && !IsAsciiAlphanumeric(id[i])
    ensures S.AddStudent(Some(id), store) == Reply(BadRequest, false, None)
    ensures C.AddStudent(Some(id), store').status != BadRequest
  {
  }

  /** On a readable file both servers delete alike: the same status and the
      same filtered list. On a missing file server.js reads an empty list
      and answers 404, while certificate-server.js answers 500. A failed
      read or a value of the wrong shape is a 500 in both. */
  lemma DeleteStudentPolicies(id: string, read: ReadResult<seq<string>>, writeOk: bool)
    requires id != ""
    ensures var s := S.DeleteStudent(Some(id), Store(Stored(read).0, writeOk));
            var c := C.DeleteStudent(Some(id), Store(Stored(read).1, writeOk));
            && (read.Found? ==> s.status == c.status && (s.save.Some? <==> c.save.Some?))
            && (read.Found? && s.save.Some? ==> s.save.value.validStudentIds == c.save.value.students)
            && (read.Missing? ==> s == Reply(NotFound, true, None) && c == Reply(ServerError, true, None))
            && (read.Unusable() ==> s == Reply(ServerError, true, None) && c == Reply(ServerError, true, None))
  {
  }

  /** Registering, re-registering and removing one ID on server.js, each
      request reading what the previous one wrote, starting from no file. */
  lemma StudentLifecycle(id: string)
    requires S.ValidStudentId(Some(id))
    ensures var first := S.AddStudent(Some(id), Store(Missing, true));
            && first == Reply(Ok, true, Some(S.StudentsDoc([id])))
            && var again := S.AddStudent(Some(id), Store(Found(first.save.value), true));
            && again == Reply(Ok, true, None)
            && var gone := S.DeleteStudent(Some(id), Store(Found(first.save.value), true));
            && gone == Reply(Ok, true, Some(S.StudentsDoc([])))
            && S.DeleteStudent(Some(id), Store(Found(gone.save.value), true)) == Reply(NotFound, true, None)
  {
    assert [] + [id] == [id];
    var first := S.AddStudent(Some(id), Store(Missing, true));
    var gone := S.DeleteStudent(Some(id), Store(Found(first.save.value), true));
    assert multiset(gone.save.value.validStudentIds)[id] == 0;
  }

  /** Issuing a certificate, issuing it again, and deleting it on
      server.js, each request reading what the previous one wrote: the
      second issue overwrites the first, so one entry remains, and the
      delete leaves none. */
  lemma CertificateLifecycle(sid: string, cn: string, t1: string, t2: string)
    requires sid != "" && cn != ""
    ensures var first := S.SaveCertificate(Some(sid), Some(cn), t1, Store(Missing, true));
            && first == Reply(Ok, true, Some([S.CertificateEntry(sid, cn, t1)]))
            && var again := S.AddCertificate(Some(sid), Some(cn), t2, Store(Found(first.save.value), true));
            && again == Reply(Ok, true, Some([S.CertificateEntry(sid, cn, t2)]))
            && var gone := S.DeleteCertificate(Some(sid), Some(cn), Store(Found(again.save.value), true));
            && gone == Reply(Ok, true, Some([]))
            && S.DeleteCertificate(Some(sid), Some(cn), Store(Found(gone.save.value), true)) == Reply(NotFound, true, None)
  {
    var e1 := S.CertificateEntry(sid, cn, t1);
    var e2 := S.CertificateEntry(sid, cn, t2);
    assert [] + [e1] == [e1];
    var first := S.SaveCertificate(Some(sid), Some(cn), t1, Store(Missing, true));
    assert first.save == Some([e1]);
    assert IsFirstWithKey([e1], S.CertificateKey, (sid, cn), 0);
    assert HasKey([e1], S.CertificateKey, (sid, cn));
    var again := S.AddCertificate(Some(sid), Some(cn), t2, Store(Found([e1]), true));
    assert S.NewEntry(sid, cn, t2) == e2 && S.CertificateKey(e2) == (sid, cn);
    assert S.CertificateUpserted([e1], e2, again.save.value);
    assert |again.save.value| == 1;
    assert again.save.value[0] == e2;
    assert again.save.value == [e2];
    var gone := S.DeleteCertificate(Some(sid), Some(cn), Store(Found([e2]), true));
    assert multiset(gone.save.value)[e2] == 0;
    assert gone.save == Some([]);
  }
}
