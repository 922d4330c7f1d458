/** The route handlers of server.js, as pure functions from request fields
    and the store to a reply. This server keeps a missing file apart from a
    failed read, tolerates an already-registered student ID, and upserts
    certificates by the pair (student ID, certificate number). */
module Server {
  import opened Basics
  import opened Collections
  import opened DocumentStore
  import opened JsText

  /** A record of the progress-status file. */
  datatype ProgressRecord = ProgressRecord(studentId: string, status: string)

  /** A record of the basic certificates file; `timestamp` is the ISO-8601
      time the server stamped on it. */
  datatype CertificateEntry = CertificateEntry(studentId: string, certificateNumber: string, timestamp: string)

  /** The students file: `{ validStudentIds: [...] }`. */
  datatype StudentsDoc = StudentsDoc(validStudentIds: seq<string>)

  function ProgressKey(p: ProgressRecord): string {
    p.studentId
  }

  function CertificateKey(c: CertificateEntry): (string, string) {
    (c.studentId, c.certificateNumber)
  }

  /** The in-place assignment `student.status = st`. */
  function SetStatus(st: string): ProgressRecord -> ProgressRecord {
    (p: ProgressRecord) => p.(status := st)
  }

  /** The assignment `certificates[index] = entry`. */
  function ReplaceWith(entry: CertificateEntry): CertificateEntry -> CertificateEntry {
    (_: CertificateEntry) => entry
  }

  /** `progressData.find(s => s.studentId === id)` followed by setting the
      found record's status in place, or else pushing `{ studentId, status }`. */
  ghost predicate StatusUpserted(before: seq<ProgressRecord>, id: string, st: string, after: seq<ProgressRecord>) {
    if HasKey(before, ProgressKey, id) then
      && |after| == |before|
      && forall i :: 0 <= i < |before| ==>
           after[i] == if IsFirstWithKey(before, ProgressKey, id, i) then before[i].(status := st) else before[i]
    else
      after == before + [ProgressRecord(id, st)]
  }

  /** The status upsert: the first record of student `id` gets status `st`,
      or a new record is appended when the student has none. */
  function UpsertStatus(data: seq<ProgressRecord>, id: string, st: string): (r: seq<ProgressRecord>)
    ensures StatusUpserted(data, id, st, r)
  {
    UpsertKey(data, ProgressKey, id, SetStatus(st), ProgressRecord(id, st))
  }

  /** POST /update-student-status. */
  function UpdateStudentStatus(studentId: Option<string>, status: Option<string>, store: Store<seq<ProgressRecord>>)
    : (r: Reply<seq<ProgressRecord>>)
    ensures r.status == BadRequest <==> !Supplied(studentId) || !Supplied(status)
    ensures r.status == BadRequest ==> !r.read && r.save.None?
    ensures r.status != BadRequest ==> r.read
    ensures r.status != BadRequest && store.read.Unusable() ==> r.status == ServerError && r.save.None?
    ensures r.status != BadRequest && !store.read.Unusable() ==>
              && r.save.Some?
              && StatusUpserted(Contents(store.read, []), studentId.value, status.value, r.save.value)
              && (r.status == Ok <==> store.writeOk)
    ensures r.status in {Ok, BadRequest, ServerError}
  {
    if !Supplied(studentId) || !Supplied(status) then
      Reply(BadRequest, false, None)
    else
      match ReadOrDefault(store.read, [])
      case Failure(_) => Reply(ServerError, true, None)
      case Success(data) =>
        var updated := UpsertStatus(data, studentId.value, status.value);
        Reply(AfterWrite(store.writeOk, Ok), true, Some(updated))
  }

  /** One status record per student: a status update of a file that had at
      most one record per student still has at most one, and the record of
      the updated student carries the new status. */
  lemma UpdateStatusKeepsOneRecordPerStudent(data: seq<ProgressRecord>, id: string, st: string)
    requires UniqueKeys(data, ProgressKey)
    ensures var after := UpsertStatus(data, id, st);
            && UniqueKeys(after, ProgressKey)
            && |data| <= |after| <= |data| + 1
            && (exists i :: 0 <= i < |after| && after[i] == ProgressRecord(id, st))
            && (forall i :: 0 <= i < |after| && after[i].studentId == id ==> after[i].status == st)
  {
    var after := UpsertStatus(data, id, st);
    UpsertKeyKeepsUniqueKeys(data, ProgressKey, id, SetStatus(st), ProgressRecord(id, st));
    var i :| 0 <= i < |after| && ProgressKey(after[i]) == id;
    assert after[i] == ProgressRecord(id, st);
  }

  /** Sending the same status update twice leaves the file as one update
      does. */
  lemma UpdateStatusIdempotent(data: seq<ProgressRecord>, id: string, st: string)
    ensures UpsertStatus(UpsertStatus(data, id, st), id, st) == UpsertStatus(data, id, st)
  {
    UpsertKeyIdempotent(data, ProgressKey, id, SetStatus(st), ProgressRecord(id, st));
  }

  /** DELETE /delete-certificate. */
  function DeleteCertificate(studentId: Option<string>, certificateNumber: Option<string>, store: Store<seq<CertificateEntry>>)
    : (r: Reply<seq<CertificateEntry>>)
    ensures r.status == BadRequest <==> !Supplied(studentId) || !Supplied(certificateNumber)
    ensures r.status == BadRequest ==> !r.read && r.save.None?
    ensures r.status != BadRequest ==> r.read
    ensures r.status != BadRequest && store.read.Unusable() ==> r.status == ServerError && r.save.None?
    ensures r.status != BadRequest && !store.read.Unusable() ==>
              var before := Contents(store.read, []);
              var k := (studentId.value, certificateNumber.value);
              && (r.status == NotFound <==> !HasKey(before, CertificateKey, k))
              && (r.status == NotFound ==> r.save.None?)
              && (r.status != NotFound ==>
                    && r.save.Some?
                    && r.save.value == RemoveKey(before, CertificateKey, k)
                    && |r.save.value| < |before|
                    && (forall c :: multiset(r.save.value)[c] == if CertificateKey(c) == k then 0 else multiset(before)[c])
                    && (r.status == Ok <==> store.writeOk))
    ensures r.status in {Ok, BadRequest, NotFound, ServerError}
  {
    if !Supplied(studentId) || !Supplied(certificateNumber) then
      Reply(BadRequest, false, None)
    else
      match ReadOrDefault(store.read, [])
      case Failure(_) => Reply(ServerError, true, None)
      case Success(certificates) =>
        var updated := RemoveKey(certificates, CertificateKey, (studentId.value, certificateNumber.value));
        if |updated| == |certificates| then Reply(NotFound, true, None)
        else Reply(AfterWrite(store.writeOk, Ok), true, Some(updated))
  }

  /** Whether `studentId` passes `!studentId || !/^[a-zA-Z0-9]+$/.test(studentId)`
      in /add-student: a non-empty string of ASCII letters and digits. */
  function ValidStudentId(studentId: Option<string>): (b: bool)
    ensures b <==> studentId.Some? && |studentId.value| > 0 &&
                   forall i :: 0 <= i < |studentId.value| ==> IsAsciiAlphanumeric(studentId.value[i])
  {
    Supplied(studentId) && FullMatchPlus(studentId.value, IsAsciiAlphanumeric)
  }

  /** POST /add-student: a new ID is appended once; an ID already present is
      answered with success and nothing is written. */
  function AddStudent(studentId: Option<string>, store: Store<StudentsDoc>): (r: Reply<StudentsDoc>)
    ensures r.status == BadRequest <==> !ValidStudentId(studentId)
    ensures r.status == BadRequest ==> !r.read && r.save.None?
    ensures r.status != BadRequest ==> r.read
    ensures r.status != BadRequest && store.read.Unusable() ==> r.status == ServerError && r.save.None?
    ensures r.status != BadRequest && !store.read.Unusable() ==>
              var ids := Contents(store.read, StudentsDoc([])).validStudentIds;
              && (studentId.value in ids ==> r.status == Ok && r.save.None?)
              && (studentId.value !in ids ==>
                    && r.save.Some?
                    && r.save.value.validStudentIds == ids + [studentId.value]
                    && (r.status == Ok <==> store.writeOk))
    ensures r.status in {Ok, BadRequest, ServerError}
  {
    if !ValidStudentId(studentId) then
      Reply(BadRequest, false, None)
    else
      match ReadOrDefault(store.read, StudentsDoc([]))
      case Failure(_) => Reply(ServerError, true, None)
      case Success(data) =>
        if studentId.value !in data.validStudentIds then
          Reply(AfterWrite(store.writeOk, Ok), true, Some(data.(validStudentIds := data.validStudentIds + [studentId.value])))
        else
          Reply(Ok, true, None)
  }

  /** /add-student never introduces a duplicate: whatever it writes holds the
      new ID and, when the stored IDs were distinct, holds distinct IDs. */
  lemma AddStudentKeepsIdsUnique(studentId: Option<string>, store: Store<StudentsDoc>)
    requires store.read.Found? ==> UniqueKeys(store.read.doc.validStudentIds, Itself)
    ensures var r := AddStudent(studentId, store);
            r.save.Some? ==>
              && studentId.value in r.save.value.validStudentIds
              && UniqueKeys(r.save.value.validStudentIds, Itself)
  {
  }

  /** The certificate entry `/save-certificate` and `/add-certificate` store:
      the key pair and the time of the request. */
  function NewEntry(studentId: string, certificateNumber: string, now: string): CertificateEntry {
    CertificateEntry(studentId, certificateNumber, now)
  }

  /** `certificates.findIndex` on the key pair followed by assignment at that
      index, or a push when there is none. */
  ghost predicate CertificateUpserted(before: seq<CertificateEntry>, entry: CertificateEntry, after: seq<CertificateEntry>) {
    var k := CertificateKey(entry);
    if HasKey(before, CertificateKey, k) then
      && |after| == |before|
      && forall i :: 0 <= i < |before| ==>
           after[i] == if IsFirstWithKey(before, CertificateKey, k, i) then entry else before[i]
    else
      after == before + [entry]
  }

  /** The certificate upsert: the entry replaces the first one with its key
      pair, or is appended. */
  function UpsertCertificate(certificates: seq<CertificateEntry>, entry: CertificateEntry): (r: seq<CertificateEntry>)
    ensures CertificateUpserted(certificates, entry, r)
  {
    UpsertKey(certificates, CertificateKey, CertificateKey(entry), ReplaceWith(entry), entry)
  }

  /** What both certificate-saving endpoints promise: 400 without either key
      field, 500 on a failed read, otherwise the upserted list is written. */
  ghost predicate SavesCertificate(studentId: Option<string>, certificateNumber: Option<string>, now: string,
                                   store: Store<seq<CertificateEntry>>, r: Reply<seq<CertificateEntry>>) {
    && (r.status == BadRequest <==> !Supplied(studentId) || !Supplied(certificateNumber))
    && (r.status == BadRequest ==> !r.read && r.save.None?)
    && (r.status != BadRequest ==> r.read)
    && (r.status != BadRequest && store.read.Unusable() ==> r.status == ServerError && r.save.None?)
    && (r.status != BadRequest && !store.read.Unusable() ==>
          && r.save.Some?
          && CertificateUpserted(Contents(store.read, []), NewEntry(studentId.value, certificateNumber.value, now), r.save.value)
          && (r.status == Ok <==> store.writeOk))
    && r.status in {Ok, BadRequest, ServerError}
  }

  /** POST /save-certificate; `now` is the request time. */
  function SaveCertificate(studentId: Option<string>, certificateNumber: Option<string>, now: string,
                           store: Store<seq<CertificateEntry>>): (r: Reply<seq<CertificateEntry>>)
    ensures SavesCertificate(studentId, certificateNumber, now, store, r)
  {
    if !Supplied(studentId) || !Supplied(certificateNumber) then
      Reply(BadRequest, false, None)
    else
      match ReadOrDefault(store.read, [])
      case Failure(_) => Reply(ServerError, true, None)
      case Success(certificates) =>
        var updated := UpsertCertificate(certificates, NewEntry(studentId.value, certificateNumber.value, now));
        Reply(AfterWrite(store.writeOk, Ok), true, Some(updated))
  }

  /** POST /add-certificate, the alias of /save-certificate: an existing key
      pair is overwritten rather than rejected. */
  function AddCertificate(studentId: Option<string>, certificateNumber: Option<string>, now: string,
                          store: Store<seq<CertificateEntry>>): (r: Reply<seq<CertificateEntry>>)
    ensures SavesCertificate(studentId, certificateNumber, now, store, r)
  {
    SaveCertificate(studentId, certificateNumber, now, store)
  }

  /** Key pairs stay unique under the certificate upsert, the list grows by
      at most one, and the saved entry is the only one with its pair. */
  lemma UpsertCertificateKeepsPairsUnique(certificates: seq<CertificateEntry>, entry: CertificateEntry)
    requires UniqueKeys(certificates, CertificateKey)
    ensures var after := UpsertCertificate(certificates, entry);
            && UniqueKeys(after, CertificateKey)
            && |certificates| <= |after| <= |certificates| + 1
            && entry in after
            && forall c :: c in after && CertificateKey(c) == CertificateKey(entry) ==> c == entry
  {
  }

  /** Saving the same certificate twice in a row leaves the list as saving
      it once. */
  lemma UpsertCertificateIdempotent(certificates: seq<CertificateEntry>, entry: CertificateEntry)
    ensures UpsertCertificate(UpsertCertificate(certificates, entry), entry) == UpsertCertificate(certificates, entry)
  {
    UpsertKeyIdempotent(certificates, CertificateKey, CertificateKey(entry), ReplaceWith(entry), entry);
  }

  /** DELETE /delete-student: every occurrence of the ID is filtered out; an
      unchanged length means the ID was not there, and nothing is written. */
  function DeleteStudent(studentId: Option<string>, store: Store<StudentsDoc>): (r: Reply<StudentsDoc>)
    ensures r.status == BadRequest <==> !Supplied(studentId)
    ensures r.status == BadRequest ==> !r.read && r.save.None?
    ensures r.status != BadRequest ==> r.read
    ensures r.status != BadRequest && store.read.Unusable() ==> r.status == ServerError && r.save.None?
    ensures r.status != BadRequest && !store.read.Unusable() ==>
              var ids := Contents(store.read, StudentsDoc([])).validStudentIds;
              && (r.status == NotFound <==> studentId.value !in ids)
              && (r.status == NotFound ==> r.save.None?)
              && (r.status != NotFound ==>
                    && r.save.Some?
                    && r.save.value.validStudentIds == RemoveKey(ids, Itself, studentId.value)
                    && |r.save.value.validStudentIds| < |ids|
                    && (forall x :: multiset(r.save.value.validStudentIds)[x] == if x == studentId.value then 0 else multiset(ids)[x])
                    && (r.status == Ok <==> store.writeOk))
    ensures r.status in {Ok, BadRequest, NotFound, ServerError}
  {
    if !Supplied(studentId) then
      Reply(BadRequest, false, None)
    else
      match ReadOrDefault(store.read, StudentsDoc([]))
      case Failure(_) => Reply(ServerError, true, None)
      case Success(data) =>
        var updated := RemoveKey(data.validStudentIds, Itself, studentId.value);
        assert HasKey(data.validStudentIds, Itself, studentId.value) <==> studentId.value in data.validStudentIds;
        if |updated| == |data.validStudentIds| then Reply(NotFound, true, None)
        else Reply(AfterWrite(store.writeOk, Ok), true, Some(data.(validStudentIds := updated)))
  }
}
