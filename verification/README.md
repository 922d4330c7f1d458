# Student-certificate backends: the collection logic

This project models the part of the student-certificate website that
decides anything. That is the in-memory list transforms inside the route
handlers of the two JSON-file servers, `server.js` and
`certificate-server.js`, plus two input checks from the landing page
script `js/main.js`. Every handler reads a JSON document, changes one list
in it, and writes the document back. Here each handler is a pure function:

- Inputs: the request fields, and a `Store` that says what reading the
  document file gives and whether a write would succeed. A read is
  `Missing` (no file), `Failed` (unreadable, or not JSON), `Malformed`
  (parses, but without the list the handler works on) or `Found(doc)`.
- Output: a `Reply`. It holds the status the handler answers with (`Ok`,
  `Created`, `BadRequest`, `NotFound`, `Conflict`, `ServerError`), whether
  the handler touched the store at all, and the document it asked the store
  to write, if any.

Modules:

- `Basics`: `Option`, `Result`, and `Supplied`, which is what `!field`
  accepts for a string request field.
- `Collections`: the generic list operations, keyed by a key function.
  - find the first record with a key (`findIndex`/`find`)
  - drop every record with a key (`filter`)
  - upsert: update the first match in place, or append
  - lemmas that these keep keys unique and that upsert is idempotent
- `DocumentStore`: the `readJsonFile` policies of the two servers, the
  status after a write, and the reply shape.
- `JsText`: `String.prototype.trim`, the classes `\d` and `[a-zA-Z0-9]`,
  and whole-string patterns `^[class]+$`.
- `Server`: the handlers of `server.js`, which are
  `/update-student-status`, `/delete-certificate`, `/add-student`,
  `/save-certificate`, `/add-certificate` and `/delete-student`.
- `CertificateServer`: the handlers of `certificate-server.js`, which are
  `/add-student`, `/delete-student`, `/add-certificate` and
  `/delete-certificate`.
- `FrontEnd`: the phone-field message and the signup email guard.
- `Policies`: the two servers side by side on the same inputs, plus two
  request sequences in which each request reads what the previous one
  wrote.

The two servers keep the same kind of student list but follow different
policies:

| | server.js | certificate-server.js |
|---|---|---|
| valid ID on /add-student | non-empty `[a-zA-Z0-9]+` | any non-empty string |
| ID already present | 200, nothing written | 409, nothing written |
| missing file | read as the default empty document | read as `null` |
| failed read (unreadable, not JSON) | 500 | add: falls back to an empty list and writes it; delete: 500 |
| file parses, list missing | 500 | 500, nothing written |
| failed write | raised, 500 | `false`, 500 |

Points where the code does something a reader might not expect, as
the model states them:

- `/add-student` of `certificate-server.js` writes `{ students: [id] }`
  over a students file it could not read or parse
  (certificate-server.js:134): its read helper turns every such failure
  into `null`, and the handler falls back to `{ students: [] }`.
  `CertificateServer.AddStudentOverwritesUnreadableFile` and
  `Policies.AddStudentFailedRead` state this. A file that parses to a
  value without a `students` array is different: the handler throws at
  certificate-server.js:137 and Express answers 500 with nothing written
  (`Policies.AddStudentMalformedFile`).
- `/save-certificate` and `/add-certificate` of `server.js` overwrite an
  entry with the same (student ID, certificate number) pair instead of
  rejecting it (server.js:267-271).
- Both servers write a file in place with one `writeFile` call
  (server.js:56, certificate-server.js:52). Here a write is only "the
  document handed to the write" plus a success flag.
- `/add-certificate` and `/delete-certificate` of `certificate-server.js`
  never read the stored document (certificate-server.js:84 and 105). They
  store the client's array as sent, so there is no key check and no merge
  at all.

## Model

| member | source | states |
|---|---|---|
| DocumentStore.ReadOrDefault | server.js:36-47 | A missing file gives the caller's default; a failed read or parse, or a value without the list the handler dereferences, is an error and never yields the default; a readable file yields its document |
| DocumentStore.ReadOrNull | certificate-server.js:39-47 | A failed read or parse, a missing file included, comes back as null and is never raised; a value that parses is handed back whatever its shape; a readable file yields its document |
| DocumentStore.AfterWrite | certificate-server.js:145-151 | After a write the handler answers its success code exactly when the write went through, and 500 otherwise; used by every writing handler of both servers (also certificate-server.js:84-90, 105-112, 178-184 and the catch blocks of server.js) |
| DocumentStore.ReadPoliciesCompared | certificate-server.js:39-47 | server.js's read tells a missing file from a failed read; certificate-server.js's read maps both to null; a value of the wrong shape is an error in server.js and is handed on by certificate-server.js; on a readable file both yield the document |
| Collections.IndexOfKey | server.js:257-259 | findIndex on a key: the result is the first position holding the key, and there is no result exactly when no element holds it |
| Collections.RemoveKey | server.js:113 | filter on "key differs": every element with the key is gone, every other element keeps its multiplicity, the length is unchanged exactly when nothing had the key, and then the list is unchanged |
| Collections.UpsertKey | server.js:267-271 | With the key present, only the first element with it is replaced and the length is kept; with it absent, exactly the new element is appended at the end |
| Collections.RemoveKeyAppend | server.js:404 | Filtering a concatenation is concatenating the filtered parts, so the kept elements stay in their original order |
| Collections.RemoveKeyKeepsUniqueKeys | server.js:404 | Filtering a list with unique keys leaves unique keys |
| Collections.UpsertKeyKeepsUniqueKeys | server.js:86-93 | An upsert on a list with unique keys leaves unique keys, contains the key afterwards, and grows by at most one |
| Collections.UpsertKeyIdempotent | server.js:267-271 | Upserting the same key twice, with a merge that keeps the key and is idempotent, gives the list that one upsert gives |
| JsText.FullMatchPlus | server.js:177 | A `^[class]+$` test holds exactly for a non-empty string whose every character is in the class |
| JsText.Trim | js/main.js:119 | trim is empty exactly for all-whitespace input; otherwise it is the slice of the input between the leading and the trailing whitespace, and it neither starts nor ends with whitespace |
| JsText.TrimOfPadded | js/main.js:119 | Whitespace around a core that neither starts nor ends with whitespace is removed, and the core is returned unchanged |
| JsText.TrimIgnoresSurroundingWhitespace | js/main.js:119 | Adding whitespace on either side of a string does not change its trimmed value |
| JsText.TrimIdempotent | js/main.js:119 | Trimming a trimmed value changes nothing |
| Server.UpsertStatus | server.js:86-93 | The first record of the student gets the new status and every other record and the length stay as they were; a student with no record gets exactly one `{studentId, status}` appended |
| Server.UpdateStudentStatus | server.js:75-101 | 400 exactly when studentId or status is missing or empty, with no read or write; 500 with no write on a failed read; otherwise the upserted list of the stored one (empty when there is no file) is written, and the answer is 200 exactly when the write succeeds |
| Server.UpdateStatusKeepsOneRecordPerStudent | server.js:86-93 | With at most one record per student before, there is at most one after, the list grows by at most one, and the student's record carries the new status |
| Server.UpdateStatusIdempotent | server.js:84-95 | Sending the same status update twice leaves the list as one update does |
| Server.DeleteCertificate | server.js:104-119 | 400 with no store access when either key is missing; 500 with no write on a failed read; 404 with no write exactly when no entry has the pair; otherwise the stored list filtered of that pair, every other entry kept in order, is written |
| Server.ValidStudentId | server.js:177 | An ID passes exactly when it is present, non-empty, and made only of ASCII letters and digits |
| Server.AddStudent | server.js:175-192 | 400 with no store access for an invalid ID; 500 with no write on a failed read; an ID already present gives 200 and no write; a new ID is appended once to the stored list (empty when there is no file) and written |
| Server.AddStudentKeepsIdsUnique | server.js:182-188 | Whatever /add-student writes contains the ID and, when the stored IDs were distinct, contains distinct IDs |
| Server.UpsertCertificate | server.js:256-271 | The new entry replaces the first entry with the same (studentId, certificateNumber) pair, keeping the length and every other entry; with no such entry it is appended |
| Server.SaveCertificate | server.js:245-313 | 400 with no store access when either key is missing; 500 with no write on a failed read; otherwise the certificate upsert of the stored list is written, with the request time as timestamp, and the answer is 200 exactly when the write succeeds |
| Server.AddCertificate | server.js:316-390 | The same promise as /save-certificate: an existing pair is overwritten rather than rejected |
| Server.UpsertCertificateKeepsPairsUnique | server.js:327-350 | With unique pairs before, pairs are unique after, the list grows by at most one, and the saved entry is the only entry with its pair |
| Server.UpsertCertificateIdempotent | server.js:256-273 | Saving the same certificate twice in a row leaves the list as saving it once |
| Server.DeleteStudent | server.js:393-419 | 400 with no store access without an ID; 500 with no write on a failed read; 404 with no write exactly when the ID is absent (always so without a file); otherwise the stored list filtered of the ID, every other ID kept in order, is written |
| CertificateServer.AddStudent | certificate-server.js:126-152 | 400 with no store access without an ID; 500 with no write when the stored value has no `students` array; an ID in the stored list (empty when the read gave null) gives 409 and no write; otherwise that list with the ID appended is written, answering 201 exactly when the write succeeds |
| CertificateServer.Register | certificate-server.js:137-151 | After the read: 409 with no write exactly when the ID is in the list; otherwise the list with the ID pushed is written, answering 201 exactly when the write succeeds |
| CertificateServer.AddStudentKeepsIdsUnique | certificate-server.js:137-145 | What /add-student writes is one ID longer than the list it read, and holds distinct IDs when the stored ones were |
| CertificateServer.AddStudentOverwritesUnreadableFile | certificate-server.js:134 | On a file it cannot read or parse, /add-student behaves as on a missing file and writes a list holding only the new ID |
| CertificateServer.DeleteStudent | certificate-server.js:155-185 | 400 with no store access without an ID; 500 with no write when the read gives null or a value without a `students` array; 404 with no write exactly when the ID is absent; otherwise the stored list filtered of the ID, every other ID kept in order, is written |
| CertificateServer.ReplaceCertificates | certificate-server.js:76-84 | 400 exactly when `certificates` is missing or not an array; otherwise `{certificates}` is written exactly as sent, with no read of the stored document |
| CertificateServer.AddCertificate | certificate-server.js:73-91 | 400 with nothing written unless `certificates` is an array; otherwise the array is written as sent, with no read, answering 201 exactly when the write succeeds |
| CertificateServer.DeleteCertificate | certificate-server.js:94-113 | 400 with nothing written unless `certificates` is an array; otherwise the array is written as sent, with no read, answering 200 exactly when the write succeeds |
| CertificateServer.CertificateWritesIgnoreStoredDocument | certificate-server.js:97-105 | What was stored before has no bearing on the answer or on the written document of either certificate endpoint |
| FrontEnd.PhoneError | js/main.js:118-127 | The message is one of the three; "mobile number only" exactly when the trimmed value is empty or holds a non-digit; cleared exactly when the trimmed value is ten digits; "10-digit" only for a length other than ten |
| FrontEnd.PhoneErrorIgnoresSurroundingWhitespace | js/main.js:119 | Whitespace around the value never changes the message |
| FrontEnd.PhoneErrorOfDigits | js/main.js:122-125 | A run of digits, however padded with whitespace, is cleared when it is ten long and gets the "10-digit" message otherwise |
| FrontEnd.PhoneErrorOfNonDigit | js/main.js:120-121 | A character anywhere in the value that is neither whitespace nor a digit gives "mobile number only" |
| FrontEnd.PhoneErrorOfBlank | js/main.js:120-121 | An empty or all-whitespace value gives "mobile number only", since the pattern needs at least one digit |
| FrontEnd.SignupProceeds | js/main.js:132-136 | Signup goes on exactly when the email holds a character that is not whitespace |
| Policies.AddStudentRepeatedId | certificate-server.js:137-139 | On the same stored list holding the ID, server.js answers 200 and certificate-server.js answers 409; neither writes |
| Policies.AddStudentNewId | certificate-server.js:141-145 | For a new valid ID and the same readable or missing file, both servers write the stored list with the ID appended once; they differ only in the success code |
| Policies.AddStudentFailedRead | certificate-server.js:134 | On a file that cannot be read or parsed, server.js answers 500 without writing, while certificate-server.js writes a list holding only the new ID |
| Policies.AddStudentMalformedFile | certificate-server.js:137 | On a file that parses to a value without the expected list, both servers answer 500 and write nothing |
| Policies.AddStudentNonAlphanumericId | server.js:177-179 | An ID with a character outside `[a-zA-Z0-9]` is refused by server.js before any store access, and is not refused by certificate-server.js |
| Policies.DeleteStudentPolicies | certificate-server.js:163-174 | On a readable file both servers give the same status and write the same list; without a file server.js answers 404 and certificate-server.js 500; on a failed read or a value of the wrong shape both answer 500; none of the refusals writes |
| Policies.StudentLifecycle | server.js:182-188 | From no file: adding an ID writes `[id]`, adding it again writes nothing, deleting it writes `[]`, and deleting it again is a 404 |
| Policies.CertificateLifecycle | server.js:256-273 | From no file: saving a certificate writes one entry, saving the same pair again overwrites it (still one entry), deleting it writes an empty list, and deleting it again is a 404 |

## Left out

- Real file I/O, directory creation, JSON parsing and the two-space formatting of the written files. A read is `Missing`, `Failed` (unreadable, or not JSON), `Malformed` (parses to a truthy value without the list the handler dereferences) or `Found(doc)`. A write is the document handed to it plus a success flag supplied by the caller. A file that parses to a falsy value (`null`, `false`, `0`, `""`) behaves exactly as `Failed` in both servers, so it has no outcome of its own.
- Stored lists whose field is present but is not an array of strings (for example `"students": "abc"`, on which `includes` does a substring test before `push` throws) or whose elements are not strings. `Found(doc)` always holds a well-formed list.
- Request fields holding non-string JSON values (numbers, booleans, objects) where the handlers expect strings. String fields are `Option<string>`, with `None` for absent or null. Only the `certificates` field of `certificate-server.js` is a general JSON value, and its numbers are integers, with no floating point or NaN.
- The timestamps from `new Date().toISOString()`. The request time is a parameter of `SaveCertificate` and `AddCertificate`.
- The second, best-effort writes to the certificate details file in `/delete-certificate`, `/save-certificate` and `/add-certificate` of `server.js`. They swallow their errors, never change the answer, and repeat the same filter and upsert on another list.
- The volatile in-memory certificate array of `server.js` (`/api/certificates` and `/api/certificates/:certId`). It is never persisted.
- The read-only listing endpoints, `/api/save-certificate-details` and `/update-certificates-json` of `server.js`. These handlers read or write whole documents without changing any list.
- `saveToPath` in `certificate-server.js`. It only picks which file the array is written to.
- Startup file creation (`ensureJsonFileExists`) in `certificate-server.js`. It only affects whether a later read sees `Missing`.
- Lost updates between interleaved requests. Every handler here runs alone, from one read to one write.
- Express routing, middleware, CORS, static serving and port binding. Also the response message texts of the servers: only the status is modelled.
- From `js/main.js`: the carousel and scroll code, the copyright year, the newsletter form, the web3forms upload with its file-size check, and the alert/reload steps after the signup guard. Only the guard's decision is modelled.
- `Untitled-1.js` (a MongoDB wrapper whose uniqueness rules live in a library that is not part of this model) and `script.js` (DOM effects and fixed sample data).
