# Teedy file resource, translation service and registration workflow in Dafny

This project models three parts of the Teedy document manager:

- **The file REST resource.** Files are attached, reordered, listed by version, deleted, downloaded (original, variants, extracted text) and zipped. The resource decides who may see a file (`findFile`, `findFiles`, `checkFileAccessible`). Its `translate` endpoint decrypts a PDF, translates its text and writes the result to a new PDF, meaning to start a new page every 40 lines. As written, the page break closes the stream the loop keeps writing to, so the endpoint only succeeds below 40 lines; the model follows the code and records the intended loop under "## Findings".
- **The translation service.** It cuts a text into segments of 4000 characters. Each segment goes to the Youdao API as a signed form request. The answers are joined in order, and the first failure wins.
- **The user registration workflow.** The `UserRegistrationRequest` record and its table are modelled with the DAO (`create`, `getById`, `getPendingRequests`, `update`). So is the REST resource that creates, lists and processes requests.

The model follows the source's form:

- Pure decisions are functions.
- The file table (`FileStore.FileTable`), the request table (`RegistrationDao.Database`) and the request record (`RegistrationEntity.UserRegistrationRequest`) are classes whose methods update their fields.
- The source's loops are methods with loop invariants. These are the translation chunk loop, the reorder loop, the ZIP loop, the page loop and the list building of `get`.
- Every method is proved against a function that specifies it.

Modules:

- `Wrappers`: Option, Result and Outcome.
- `Decimal`: Java's decimal printing and `Long.parseLong`.
- `Chunking`: fixed-size chunks and their concatenation.
- `Translation`
- `FileEntities`, `FileAccess`, `FileData`, `FileStore` and `FileTranslate`
- `RegistrationEntity`, `RegistrationDao` and `RegistrationResource`

Every web request runs in one database transaction. It is committed on success and rolled back on an error response. So every operation that ends in an error leaves the tables as they were.

## Model

| member | source | states |
|---|---|---|
| Decimal.DecimalString | docs-web/src/main/java/com/sismics/docs/core/service/TranslationService.java:119 | the decimal form of a length is a non-empty string of digits, one digit exactly for values below 10 |
| Decimal.ParseDigits | docs-web/src/main/java/com/sismics/docs/core/service/TranslationService.java:119 | a string has a value iff it is a non-empty run of decimal digits |
| Decimal.ParseDecimalString | docs-web/src/main/java/com/sismics/docs/core/service/TranslationService.java:119 | reading back a printed number gives the number (round trip) |
| Decimal.DecimalStringInjective | docs-web/src/main/java/com/sismics/docs/rest/resource/FileResource.java:760 | two numbers with the same decimal form are equal |
| Decimal.ParseLong | docs-web/src/main/java/com/sismics/docs/rest/resource/UserRegistrationRequestResource.java:177 | `Long.parseLong` only succeeds when, after an optional leading '+' or '-', at least one digit follows and nothing but digits; the value is inside the signed 64-bit range and is negative only after a '-' |
| Decimal.ParseLongNegative | docs-web/src/main/java/com/sismics/docs/rest/resource/UserRegistrationRequestResource.java:177 | a '-' before the decimal text of n gives -n exactly when -n fits a long (down to -9223372036854775808), and fails otherwise |
| Decimal.ParseLongMinusDigits | docs-web/src/main/java/com/sismics/docs/rest/resource/UserRegistrationRequestResource.java:177 | a '-' before any digit string of value v gives -v when it fits a long, and fails otherwise |
| Decimal.ParseLongPlus | docs-web/src/main/java/com/sismics/docs/rest/resource/UserRegistrationRequestResource.java:177 | a '+' before the decimal text of n gives n exactly when n fits a long, and fails otherwise |
| Decimal.ParseLongOverflow | docs-web/src/main/java/com/sismics/docs/rest/resource/UserRegistrationRequestResource.java:177 | the decimal text of a number above Long.MAX_VALUE is refused |
| Decimal.ParseLongOfDecimal | docs-web/src/main/java/com/sismics/docs/rest/resource/UserRegistrationRequestResource.java:177 | every number up to Long.MAX_VALUE, written in decimal, parses back to itself |
| Chunking.ChunksSpec | docs-web/src/main/java/com/sismics/docs/core/service/TranslationService.java:48-57 | cutting into pieces of n: the pieces concatenate to the input, each is 1..n long, all but the last are exactly n, and there are ceil(len/n) of them |
| Translation.Truncate | docs-web/src/main/java/com/sismics/docs/core/service/TranslationService.java:115-120 | a text of at most 20 characters is kept; a longer one becomes 20 characters plus the digits of its length |
| Translation.TruncateDecodes | docs-web/src/main/java/com/sismics/docs/core/service/TranslationService.java:119 | a truncated text holds the first 10 and the last 10 characters of the input, and between them its length, which parses back |
| Translation.TruncateOfSegmentBounded | docs-web/src/main/java/com/sismics/docs/core/service/TranslationService.java:48-53 | the sign input of a segment (at most 4000 characters) holds at most 24 characters of it |
| Translation.CurTime | docs-web/src/main/java/com/sismics/docs/core/service/TranslationService.java:68 | curtime is the clock in whole seconds, written in decimal |
| Translation.Lookup | docs-web/src/main/java/com/sismics/docs/core/service/TranslationService.java:72-80 | a form field is found iff some field has that name |
| Translation.RequestFields | docs-web/src/main/java/com/sismics/docs/core/service/TranslationService.java:67-80 | the request carries q, from, to, appKey, salt, sign, signType and curtime in that order; each name finds its value; sign is the SHA-256 of appKey, truncated q, salt, curtime and appSecret; signType is "v3" |
| Translation.HandleResponse | docs-web/src/main/java/com/sismics/docs/core/service/TranslationService.java:87-109 | a response succeeds iff it is JSON with no error code or error code "0" and a non-empty translation array, and then it gives the first translation; a non-zero error code fails with that code |
| Translation.TranslateSingle | docs-web/src/main/java/com/sismics/docs/core/service/TranslationService.java:62-109 | an empty segment comes back unchanged without a request; otherwise the result is the handled answer to the segment's signed request |
| Translation.CombineSucceeds | docs-web/src/main/java/com/sismics/docs/core/service/TranslationService.java:51-57 | the joined result is a success iff every segment's answer is a success |
| Translation.CombineConcat | docs-web/src/main/java/com/sismics/docs/core/service/TranslationService.java:49-58 | when every answer succeeds, the result is their outputs concatenated in segment order |
| Translation.CombineFirstFailure | docs-web/src/main/java/com/sismics/docs/core/service/TranslationService.java:51-57 | a failed result carries the error of the first failing segment, and every segment before it succeeded |
| Translation.TranslateText | docs-web/src/main/java/com/sismics/docs/core/service/TranslationService.java:48-58 | the loop sends the 4000-character segments in order, one call per segment with its index, and stops at the first failure: every call before the last one succeeded, a success means every call succeeded, and a failure is the last call's error; its result is the combined answers of the segments |
| Translation.ResultsOfJob | docs-web/src/main/java/com/sismics/docs/core/service/TranslationService.java:48-58 | the j-th answer of the segment loop is the translation call for the j-th segment, made as call j |
| Translation.Translate | docs-web/src/main/java/com/sismics/docs/core/service/TranslationService.java:44-58 | null or empty content fails ContentEmpty without any call; otherwise the result and the calls are those of the segment loop over the translation calls: each call but the last translated its segment, and a failure is the last segment's translation error |
| FileEntities.TargetIds | docs-web/src/main/java/com/sismics/docs/rest/resource/FileResource.java:828 | the ACL targets are exactly the caller's id, the caller's groups and the share id when given |
| FileEntities.GetDocument | docs-web/src/main/java/com/sismics/docs/rest/resource/FileResource.java:201-204 | a document is returned iff it exists and one of the targets holds the requested permission on it |
| FileEntities.DocumentFileIds | docs-web/src/main/java/com/sismics/docs/rest/resource/FileResource.java:213 | the files of a document are exactly the stored files, of every version, whose document id is that document |
| FileAccess.CheckFileAccessible | docs-web/src/main/java/com/sismics/docs/rest/resource/FileResource.java:818-832 | an orphan file passes iff the caller owns it; an attached file passes iff a target (the share included) holds READ on its document; every refusal is Forbidden |
| FileAccess.OrphanOnlyOwner | docs-web/src/main/java/com/sismics/docs/rest/resource/FileResource.java:819-824 | only the owner, and never an anonymous caller, sees an orphan file |
| FileAccess.ShareOpensAttached | docs-web/src/main/java/com/sismics/docs/rest/resource/FileResource.java:826-830 | a share holding READ on the document opens its files to anyone, anonymous callers included |
| FileAccess.FindFile | docs-web/src/main/java/com/sismics/docs/rest/resource/FileResource.java:787-795 | NotFound iff the id is unknown; success iff the file exists and passes the access check, and then it is the stored file; otherwise Forbidden |
| FileAccess.GetFiles | docs-web/src/main/java/com/sismics/docs/rest/resource/FileResource.java:805 | every stored file whose id is listed is returned, and nothing else; no file appears twice; unknown ids are skipped |
| FileAccess.GetFilesOrder | docs-web/src/main/java/com/sismics/docs/rest/resource/FileResource.java:805 | the files come in the order their ids are first listed |
| FileAccess.CheckAll | docs-web/src/main/java/com/sismics/docs/rest/resource/FileResource.java:806-808 | the loop passes iff every file passes the access check without a share |
| FileAccess.FindFiles | docs-web/src/main/java/com/sismics/docs/rest/resource/FileResource.java:803-810 | the requested files are returned iff every one of them is accessible; otherwise Forbidden |
| FileAccess.VersionFiles | docs-web/src/main/java/com/sismics/docs/rest/resource/FileResource.java:494 | the versions are exactly the stored files with that version id |
| FileAccess.Versions | docs-web/src/main/java/com/sismics/docs/rest/resource/FileResource.java:484-495 | Forbidden when anonymous; the errors of findFile otherwise; a file without a version id is its only version; otherwise every file sharing its version id, itself included |
| FileData.Data | docs-web/src/main/java/com/sismics/docs/rest/resource/FileResource.java:587-671 | an unknown size is a SizeError before any lookup; findFile's errors pass through; "content" answers the extracted text (empty when null) as text/plain; a present variant is decrypted JPEG, an absent one the bundled PNG placeholder, no size the original with its MIME type; decrypted output is cached privately for a year and the placeholder never is; 503 iff the blob to decrypt is present and cannot be decrypted, a decryptable one is streamed, and only "content" answers text |
| FileData.DataNeedsAccess | docs-web/src/main/java/com/sismics/docs/rest/resource/FileResource.java:598 | no download of any size, not even "content", reaches a caller who fails the access check |
| FileData.ReplaceNonWordRunsSpec | docs-web/src/main/java/com/sismics/docs/rest/resource/FileResource.java:710 | the archive name has word characters only, keeps every letter and digit of the title in order, and is never longer than the title |
| FileData.ReplaceNonWordRunsKeepsWords | docs-web/src/main/java/com/sismics/docs/rest/resource/FileResource.java:710 | a title made only of word characters is used as it is |
| FileData.ReplaceNonWordRunsIdempotent | docs-web/src/main/java/com/sismics/docs/rest/resource/FileResource.java:710 | applying the replacement twice is applying it once |
| FileData.ReplaceNonWordRunsSplit | docs-web/src/main/java/com/sismics/docs/rest/resource/FileResource.java:710 | each maximal run of non-word characters becomes exactly one '_': the title splits at the run into the renamed part before it, one '_', and the renamed part after it |
| FileData.EntryNamesDistinct | docs-web/src/main/java/com/sismics/docs/rest/resource/FileResource.java:760 | ZIP entries at different indexes never share a name, whatever the file names are |
| FileData.Entries | docs-web/src/main/java/com/sismics/docs/rest/resource/FileResource.java:750-767 | entry i is named "i-" plus the full name with suffix i, and holds file i |
| FileData.SendZippedFiles | docs-web/src/main/java/com/sismics/docs/rest/resource/FileResource.java:743-778 | the response is application/zip named after the archive; the stream completes iff every file decrypts, with one entry per file in order; otherwise it aborts at the first file that does not, after the entries of the files before it |
| FileData.ZipDocument | docs-web/src/main/java/com/sismics/docs/rest/resource/FileResource.java:695-712 | NotFound iff the document is not readable by the caller or the share; the archive is named after the title with runs of non-word characters replaced by '_'; given the document's file list, a complete archive holds one entry per file of the document, in list order, and an aborted one stops at the first file that does not decrypt, holding the entries of the files before it, which all decrypted |
| FileData.ZipFiles | docs-web/src/main/java/com/sismics/docs/rest/resource/FileResource.java:733-738 | Forbidden iff some requested file is not accessible; the archive is "files.zip"; it is complete iff every found file decrypts and then holds the found files in order, and an aborted one stops at the first file that does not decrypt, holding the entries of the files before it |
| FileStore.AttachTouchesOneFile | docs-web/src/main/java/com/sismics/docs/rest/resource/FileResource.java:211-214 | attaching changes only the attached file: it gets the document and the next free position, the count of the document's files |
| FileStore.AttachKeepsOrdersDense | docs-web/src/main/java/com/sismics/docs/rest/resource/FileResource.java:212-213 | attaching an orphan file adds exactly that file to the document's files; when they held the positions 0..n-1 without repeats, they still do after the file is attached |
| FileStore.LastIndexOf | docs-web/src/main/java/com/sismics/docs/rest/resource/FileResource.java:387 | `List.lastIndexOf`: -1 iff absent, otherwise an index holding the id with no later occurrence |
| FileStore.ReorderedKeepsOthers | docs-web/src/main/java/com/sismics/docs/rest/resource/FileResource.java:386-391 | reordering changes only the order of the document's listed files; other files and other fields stay as they were |
| FileStore.ReorderedDistinct | docs-web/src/main/java/com/sismics/docs/rest/resource/FileResource.java:386-391 | two listed files of the document end up at different positions, each inside the list's bounds |
| FileStore.ReorderedOutside | docs-web/src/main/java/com/sismics/docs/rest/resource/FileResource.java:386 | files outside the document are untouched by the reorder |
| FileStore.ReorderedInside | docs-web/src/main/java/com/sismics/docs/rest/resource/FileResource.java:387-390 | a file of the document takes the last index of its id in the list, or keeps its order when absent |
| FileStore.DeleteEvents | docs-web/src/main/java/com/sismics/docs/rest/resource/FileResource.java:543-556 | a delete raises FileDeleted with the file's size, followed by DocumentUpdated exactly when the file was attached |
| FileStore.FileTable.Attach | docs-web/src/main/java/com/sismics/docs/rest/resource/FileResource.java:183-241 | Forbidden, ValidationError, NotFound (not the caller's file, or no WRITE on the document), IllegalFile (already attached), in that order; success iff all checks pass and the owner's key opens the file, and then the file is attached last and FileUpdated and DocumentUpdated are raised; AttachError otherwise; every failure leaves files and events unchanged |
| FileStore.FileTable.Reorder | docs-web/src/main/java/com/sismics/docs/rest/resource/FileResource.java:367-397 | Forbidden when anonymous, ValidationError without a document id or list, NotFound iff there is no WRITE on the document, and success in every other case; on success the document's files take the last position of their id in the list, other files are unchanged, and one DocumentUpdated event is raised; a failure changes nothing |
| FileStore.FileTable.SetOrders | docs-web/src/main/java/com/sismics/docs/rest/resource/FileResource.java:385-391 | the loop over the document's files leaves the table equal to the reordered table and raises no event |
| FileStore.FileTable.Delete | docs-web/src/main/java/com/sismics/docs/rest/resource/FileResource.java:530-556 | Forbidden when anonymous; findFile's errors otherwise; on success the file is removed and its delete events are appended |
| FileTranslate.MapLangCode | docs-web/src/main/java/com/sismics/docs/rest/resource/FileResource.java:64-73 | null or blank gives "auto"; eng/en give "en", zh/zh-CHS/zh_CN give "zh-CHS", spa gives "es", fra gives "fr", ignoring case; anything else is kept |
| FileTranslate.MapLangCodeIdempotent | docs-web/src/main/java/com/sismics/docs/rest/resource/FileResource.java:64-73 | mapping a mapped code again changes nothing |
| FileTranslate.MapLangCodeKnown | docs-web/src/main/java/com/sismics/docs/rest/resource/FileResource.java:66-71 | each spelling of the table, in any case, gets its own code whatever the order of the tests: eng and en give "en", zh, zh-CHS and zh_CN give "zh-CHS", spa gives "es", fra gives "fr" |
| FileTranslate.TargetLanguage | docs-web/src/main/java/com/sismics/docs/rest/resource/FileResource.java:867-884 | InvalidRequest iff the body is JSON without a string "to"; a form body must start with "to=" and the rest is URL-decoded, a malformed escape failing with ServerError (the exception `URLDecoder.decode` throws); any other content type gives no language |
| FileTranslate.OutputName | docs-web/src/main/java/com/sismics/docs/rest/resource/FileResource.java:990 | the new name ends with '_', the raw target code and ".pdf" |
| FileTranslate.Pieces | docs-web/src/main/java/com/sismics/docs/rest/resource/FileResource.java:966 | splitting at line breaks gives at least one piece, none holding '\n' |
| FileTranslate.DropTrailingEmpty | docs-web/src/main/java/com/sismics/docs/rest/resource/FileResource.java:966 | `split` drops exactly the trailing empty pieces |
| FileTranslate.Lines | docs-web/src/main/java/com/sismics/docs/rest/resource/FileResource.java:966 | no line holds '\n'; a text without a break is its only line; otherwise the last line is not empty |
| FileTranslate.PiecesFirst | docs-web/src/main/java/com/sismics/docs/rest/resource/FileResource.java:966 | without carriage returns, the first piece is the text before the first line break and the rest are the pieces after it |
| FileTranslate.PiecesJoin | docs-web/src/main/java/com/sismics/docs/rest/resource/FileResource.java:966 | for a text without '\r', joining the pieces with '\n' gives the text back |
| FileTranslate.LayOutAsWritten | docs-web/src/main/java/com/sismics/docs/rest/resource/FileResource.java:961-982 | the page loop as written succeeds iff there are fewer than 40 lines, and then it writes them all on one page |
| FileTranslate.LayOut | docs-web/src/main/java/com/sismics/docs/rest/resource/FileResource.java:965-980 | the page loop as intended: len/40+1 pages, read in order they give the lines back, every page but the last holds 40 lines, and the last holds len mod 40 |
| FileTranslate.FortyLines | docs-web/src/main/java/com/sismics/docs/rest/resource/FileResource.java:965-982 | forty lines: the loop as written fails, the intended loop gives one full page and an empty last page |
| FileTranslate.TranslatedText | docs-web/src/main/java/com/sismics/docs/rest/resource/FileResource.java:922-946 | the document's language and the target, both mapped, go to the translation service; the j-th answer is the j-th 4000-character segment's translation call, the text translates iff every segment's call succeeds, and then it is the calls' outputs joined in segment order |
| FileTranslate.TranslateFile | docs-web/src/main/java/com/sismics/docs/rest/resource/FileResource.java:857-1003 | Forbidden when anonymous, InvalidRequest for an unreadable body, the body's error (ServerError for a malformed escape), ValidationError without a language, findFile's errors, NotFound for an orphan file of the caller (Forbidden for someone else's), NotFound for an unreadable document, and TranslationError for every later failure; success iff the blob decrypts, the text is non-empty, every segment translates and the translation has fewer than 40 lines, because the page loop as written fails from the 40th line on; then one page holding the lines, named after the file and the target code |
| RegistrationEntity.KnownStatusFits | docs-core/src/main/java/com/sismics/docs/core/model/jpa/UserRegistrationRequest.java:40-44 | each of the three statuses fits the 20-character column |
| RegistrationEntity.UserRegistrationRequest.constructor | docs-core/src/main/java/com/sismics/docs/core/model/jpa/UserRegistrationRequest.java:14-68 | a new request has every field null |
| RegistrationEntity.UserRegistrationRequest.SetId | docs-core/src/main/java/com/sismics/docs/core/model/jpa/UserRegistrationRequest.java:74-76 | sets the id, and nothing else changes |
| RegistrationEntity.UserRegistrationRequest.SetUsername | docs-core/src/main/java/com/sismics/docs/core/model/jpa/UserRegistrationRequest.java:82-84 | sets the username, and nothing else changes |
| RegistrationEntity.UserRegistrationRequest.SetEmail | docs-core/src/main/java/com/sismics/docs/core/model/jpa/UserRegistrationRequest.java:90-92 | sets the e-mail, and nothing else changes |
| RegistrationEntity.UserRegistrationRequest.SetPassword | docs-core/src/main/java/com/sismics/docs/core/model/jpa/UserRegistrationRequest.java:98-100 | sets the password, and nothing else changes |
| RegistrationEntity.UserRegistrationRequest.SetStatus | docs-core/src/main/java/com/sismics/docs/core/model/jpa/UserRegistrationRequest.java:106-108 | sets the status, and nothing else changes |
| RegistrationEntity.UserRegistrationRequest.SetCreateDate | docs-core/src/main/java/com/sismics/docs/core/model/jpa/UserRegistrationRequest.java:114-116 | sets the creation date, and nothing else changes |
| RegistrationEntity.UserRegistrationRequest.SetProcessDate | docs-core/src/main/java/com/sismics/docs/core/model/jpa/UserRegistrationRequest.java:122-124 | sets the processing date, and nothing else changes |
| RegistrationEntity.UserRegistrationRequest.SetProcessUserId | docs-core/src/main/java/com/sismics/docs/core/model/jpa/UserRegistrationRequest.java:130-132 | sets the processing user, and nothing else changes |
| RegistrationEntity.UserRegistrationRequest.SetProcessComment | docs-core/src/main/java/com/sismics/docs/core/model/jpa/UserRegistrationRequest.java:138-140 | sets the comment, and nothing else changes |
| RegistrationEntity.UserRegistrationRequest.Snapshot | docs-core/src/main/java/com/sismics/docs/core/model/jpa/UserRegistrationRequest.java:18-68 | a request has a row iff none of the non-null columns is null, and then the row holds exactly the getters' values |
| RegistrationEntity.UserRegistrationRequest.FromRow | docs-core/src/main/java/com/sismics/docs/core/model/jpa/UserRegistrationRequest.java:70-140 | a request loaded from a row gives back that row |
| RegistrationDao.InsertAdds | docs-core/src/main/java/com/sismics/docs/core/dao/UserRegistrationRequestDao.java:67 | inserting adds exactly the new row |
| RegistrationDao.InsertSorted | docs-core/src/main/java/com/sismics/docs/core/dao/UserRegistrationRequestDao.java:67 | inserting into a list sorted by creation date keeps it sorted |
| RegistrationDao.PendingRows | docs-core/src/main/java/com/sismics/docs/core/dao/UserRegistrationRequestDao.java:67 | the pending rows are exactly the stored rows whose status is PENDING |
| RegistrationDao.Database.Create | docs-core/src/main/java/com/sismics/docs/core/dao/UserRegistrationRequestDao.java:22-41 | the request always gets the new id; AlreadyExistingUsername iff a live user has the username, with nothing stored; otherwise the creation date and PENDING are set; success iff the id is fresh and the row fits its columns, and then the row is stored under the id, which is returned |
| RegistrationDao.Database.GetById | docs-core/src/main/java/com/sismics/docs/core/dao/UserRegistrationRequestDao.java:49-58 | the stored row with that id, or null iff there is none |
| RegistrationDao.Database.GetPendingRequests | docs-core/src/main/java/com/sismics/docs/core/dao/UserRegistrationRequestDao.java:65-69 | exactly the PENDING rows, each once (the multisets agree), sorted by creation date ascending |
| RegistrationDao.Database.Update | docs-core/src/main/java/com/sismics/docs/core/dao/UserRegistrationRequestDao.java:78-84 | stamps the processing date, user and comment; the stored row becomes the request as the caller left it iff it fits its columns |
| RegistrationDao.Database.CreateUser | docs-web/src/main/java/com/sismics/docs/rest/resource/UserRegistrationRequestResource.java:180-185 | the user is refused iff a live user has the username, and otherwise appended |
| RegistrationResource.StripSpec | docs-web/src/main/java/com/sismics/docs/rest/resource/UserRegistrationRequestResource.java:55-59 | a stripped value is a slice of the input that neither starts nor ends with whitespace |
| RegistrationResource.StripClean | docs-web/src/main/java/com/sismics/docs/rest/resource/UserRegistrationRequestResource.java:55-59 | a value without surrounding whitespace is left as it is |
| RegistrationResource.StripIdempotent | docs-web/src/main/java/com/sismics/docs/rest/resource/UserRegistrationRequestResource.java:55-59 | stripping twice is stripping once |
| RegistrationResource.ValidateLength | docs-web/src/main/java/com/sismics/docs/rest/resource/UserRegistrationRequestResource.java:55-59 | a value passes iff, once stripped, it is a nullable null or blank, or a set value whose length is within [min, max]; the caller goes on with the stripped value; a failure is ValidationError |
| RegistrationResource.ValidateLengthIdempotent | docs-web/src/main/java/com/sismics/docs/rest/resource/UserRegistrationRequestResource.java:158-159 | a validated value passes validation again unchanged |
| RegistrationResource.ValidateForm | docs-web/src/main/java/com/sismics/docs/rest/resource/UserRegistrationRequestResource.java:55-59 | the form passes iff username 3..50 with the username format, password 8..50, and e-mail 1..100 with the e-mail format; the values are returned stripped |
| RegistrationResource.NewRequestRow | docs-web/src/main/java/com/sismics/docs/rest/resource/UserRegistrationRequestResource.java:62-69 | a new request is stored as PENDING, not yet processed |
| RegistrationResource.Create | docs-web/src/main/java/com/sismics/docs/rest/resource/UserRegistrationRequestResource.java:48-82 | ValidationError iff the form is invalid; AlreadyExistingUsername iff it is valid and a live user holds the username; success iff moreover the new id is fresh and fits, and then exactly one PENDING row is added; every failure is ValidationError, AlreadyExistingUsername or UnknownError and stores nothing; known statuses stay known |
| RegistrationResource.StoreRequest | docs-web/src/main/java/com/sismics/docs/rest/resource/UserRegistrationRequestResource.java:61-76 | for fields that fit: AlreadyExistingUsername iff a live user holds the username; success iff moreover the new id is fresh and fits, and then exactly the PENDING row of those fields is added; every other failure is UnknownError and stores nothing |
| RegistrationResource.Get | docs-web/src/main/java/com/sismics/docs/rest/resource/UserRegistrationRequestResource.java:101-123 | Forbidden iff the caller is not an administrator; otherwise one entry (id, username, e-mail, creation date) per PENDING request, oldest first |
| RegistrationResource.QuotaFrom | docs-web/src/main/java/com/sismics/docs/rest/resource/UserRegistrationRequestResource.java:176-177 | an unset or empty variable gives 1073741824; otherwise `Long.parseLong`, whose value is a 64-bit integer |
| RegistrationResource.QuotaFromDecimal | docs-web/src/main/java/com/sismics/docs/rest/resource/UserRegistrationRequestResource.java:177 | a quota written in decimal is the quota the user gets |
| RegistrationResource.ProcessedRow | docs-core/src/main/java/com/sismics/docs/core/dao/UserRegistrationRequestDao.java:80-83 | processing keeps id, username, e-mail, password and creation date, and sets status, processing date, user and comment |
| RegistrationResource.ApprovedUser | docs-web/src/main/java/com/sismics/docs/rest/resource/UserRegistrationRequestResource.java:171-178 | the approved user has the request's username, password and e-mail, the default role, the quota and onboarding on |
| RegistrationResource.ApplyAction | docs-web/src/main/java/com/sismics/docs/rest/resource/UserRegistrationRequestResource.java:169-192 | "approve" needs a parsable quota (ServerFailure otherwise) and a free username (UnknownError otherwise), then creates the user and sets APPROVED; "reject" sets REJECTED and creates no user; any other action is ValidationError; a failure creates no user |
| RegistrationResource.Process | docs-web/src/main/java/com/sismics/docs/rest/resource/UserRegistrationRequestResource.java:145-200 | Forbidden unless administrator; ValidationError for the action or the comment; RequestNotFound for an unknown id; on a stored request, ValidationError for an unknown action, a server failure for an unparsable quota on approve and UnknownError when approving a username a live user holds; success iff the action is known and its needs are met (whatever the current status), and then the request gets its new status, the date, the caller and the stripped comment, and approving adds the user; a failure changes no table; known statuses stay known |
| RegistrationResource.Settle | docs-web/src/main/java/com/sismics/docs/rest/resource/UserRegistrationRequestResource.java:168-194 | on a stored request: an unknown action is ValidationError, an unparsable quota on approve a server failure, a username held by a live user UnknownError; every failure is one of these three; success iff the action is known, approving has a quota and a free username, and the caller id fits; then the row gets the new status, date, caller and comment and approving adds the user; a failure, the failed merge included, changes no table |

## Left out

- I/O is not modelled: the storage directory, files on disk, temporary files, HTTP and JSON encoding. A stored blob is a map entry.
- Encryption is not modelled. A blob decrypts iff the key it was written with is its owner's key, as a map lookup (`FileEntities.CanDecrypt`).
- PDF parsing and rendering, fonts and ZIP byte streams are not modelled. The extracted PDF text is an input (`pdfText`). Pages are sequences of lines, and ZIP entries are name/file pairs.
- The HTTP call to the translation API, SHA-256, the random salt and the clock are parameters: `Provider.post`, `Provider.sha256Hex`, `CallEnv.salt` and `CallEnv.millis`.
- These are not part of this model: `FileDao`, `DocumentDao`, `AclDao`, `UserDao`, `FileUtil`, `EncryptionUtil`, `ValidationUtil`, `ConfigUtil`, `BaseResource` and `Constants`. Their behaviour is stated as the model uses it:
  - `getTargetIdList` gives the caller's id, groups and share (`FileEntities.TargetIds`).
  - `validateLength` strips the value and checks its bounds (`RegistrationResource.ValidateLength`).
  - `validateUsername`, `validateEmail`, `File.getFullName` and URL decoding are parameters.
  - `UserDao.create` refuses a username held by a live user (`RegistrationDao.Database.CreateUser`). It also hashes the password and assigns an id, which are not modelled.
  - The default role id is a parameter.
- FileEntities.DocumentFileIds: `fileDao.getByDocumentId` is not shown, and the file record has no latest-version flag here. The set holds every stored file of the document, superseded versions included. A DAO that lists only the latest version of each file gives fewer files.
- FileStore.FileTable.Attach: the new position is the number of files the document had before. `fileDao.getByDocumentId` is not shown. The count is `DocumentFileIds`, so superseded versions are counted, and the file being attached is not.
- FileStore.FileTable.Reorder: the files reordered are `DocumentFileIds`, superseded versions included. A DAO that lists only latest versions leaves the old versions' order untouched, which is not modelled.
- FileAccess.GetFiles: `fileDao.getFiles` is not shown. Each file is returned once, in the order its id is first listed, and unknown ids are skipped. The database returns the rows of `f.id in :ids` in an order of its own, which is not modelled.
- FileData.ZipDocument: `fileDao.getByDocumentId` is not shown. The file list is an input, required to hold exactly the `DocumentFileIds` files, superseded versions included, each once. The order the DAO sorts them in is not modelled.
- FileTranslate.TargetLanguage: URL decoding is a parameter that gives None for a malformed %-escape. The resource does not catch `URLDecoder.decode`'s exception, and the model answers ServerError. The character set of the decoding is not modelled.
- FileAccess.Versions: the version list is a set. The order `getByVersionId` returns is not modelled.
- The transaction filter is not shown. Every request is assumed to run in one transaction that is rolled back on an error response. That is why AttachError and a failed update in `process` restore the tables.
- Translation.Translate: the loop runs over the answer function `Answerer(job)`. One call is a function of the segment and the call index (`Translation.TranslateSingle`), not a method with side effects.
- `update` (rename), `process` (reprocess), `list`, `add` and the file-creation helper of the file resource are not among the modelled operations. `FileUtil.createFile` at the end of `translate` becomes the returned `NewPdf` value, and its failures are not modelled.
- The debug logging of `translate` is left out.
- The `@Path` id patterns of the resources (JAX-RS routing) are left out.
- Dates are integers of milliseconds.
- FileTranslate.Lines: the line splitting is proved to round-trip only for text without '\r'. The `\r?\n` separator is modelled, but the round trip with '\r' is not stated.
- Truncate: lengths are counted in Unicode scalar values (Dafny characters), where Java's `length()` and `substring` count UTF-16 code units. For text outside the Basic Multilingual Plane the 20-unit threshold, the kept 10 characters at each end and the printed length differ from Java's.
- TranslateText: segments are at most 4000 Unicode scalar values, where Java's `substring` cuts at 4000 UTF-16 code units and can split a surrogate pair. Text outside the Basic Multilingual Plane is segmented differently.
- ValidateLength: the bounds are checked on the number of Unicode scalar values, where Java checks `length()` in UTF-16 code units. A value with characters outside the Basic Multilingual Plane can pass here and fail in Java.
- ParseLong: only the ASCII digits '0' to '9' are accepted. `Long.parseLong` also accepts the other Unicode decimal digits (`Character.digit`), which are refused here.
- RegistrationDao.Database.GetPendingRequests: rows with equal creation dates may come in any order. The database's tie order is not modelled.

## Findings

| source | as written | input that shows it | evidently intended | confidence | as-written member | corrected member |
|---|---|---|---|---|---|---|
| docs-web/src/main/java/com/sismics/docs/rest/resource/FileResource.java:970-982 | after the 40th line the page loop calls `endText` and `close` on the content stream and opens the next page on a stream it closes at once; the loop keeps writing to the closed stream, so the 41st `showText`, or the final `endText` when there are exactly 40 lines, throws and the request fails with TranslationError | a translation of 40 lines (`FortyLines`: the loop as written gives ok = false) | every 40 lines a new page is started and the remaining lines are written to it | not executed | FileTranslate.LayOutAsWritten, FileTranslate.FortyLines | FileTranslate.LayOut |
