/**
 * The records the file endpoints work on: files, documents, access-control
 * entries, the caller, the encrypted storage and the asynchronous events,
 * together with the lookups the DAOs perform on them.
 */
module FileEntities {
  import opened Wrappers

  /** A stored file; `documentId` is None while the file is orphan (not attached to a document). */
  datatype File = File(
    id: string,
    documentId: Option<string>,
    userId: string,
    order: int,
    versionId: Option<string>,
    version: int,
    size: int,
    content: Option<string>,
    name: Option<string>,
    mimeType: string)

  /** The parts of a document the file endpoints read. */
  datatype Document = Document(title: string, language: Option<string>)

  datatype Perm = Read | Write

  /** One access-control entry: `targetId` (a user, a group or a share) holds `perm` on document `sourceId`. */
  datatype Ace = Ace(sourceId: string, perm: Perm, targetId: string)

  /** The caller; `id` is None for an anonymous caller. */
  datatype Principal = Principal(id: Option<string>, groupIds: set<string>)

  /**
   * The encrypted store: the key each stored blob was encrypted with, and the
   * private key of each user. A blob decrypts for a user iff both are known
   * and they agree.
   */
  datatype Storage = Storage(blobs: map<string, string>, userKeys: map<string, string>)

  /** The asynchronous events a request raises, in the order it raises them. */
  datatype Event =
    | FileUpdated(userId: string, fileId: string, language: Option<string>)
    | FileDeleted(userId: string, fileId: string, fileSize: int)
    | DocumentUpdated(userId: string, documentId: string)

  /** The errors the endpoints throw (client errors by their type, server errors by their code). */
  datatype Error =
    | Forbidden          // ForbiddenClientException
    | NotFound           // NotFoundException
    | ValidationError    // a required parameter is missing
    | IllegalFile        // the file is already attached
    | SizeError          // an unknown size variant
    | InvalidRequest     // an unreadable JSON body
    | AttachError        // the file could not be prepared for processing
    | TranslationError   // anything failing while translating a file
    | ServerError        // an exception no handler catches (an internal server error)

  /** The file table: every live file under its own id. */
  type Files = map<string, File>

  predicate WellKeyed(files: Files) {
    forall id :: id in files ==> files[id].id == id
  }

  /** The ids a permission check accepts: the caller's own id and groups, and the share when one is given. */
  function TargetIds(p: Principal, shareId: Option<string>): (t: set<string>)
    ensures p.id.Some? ==> p.id.value in t
    ensures shareId.Some? ==> shareId.value in t
    ensures p.groupIds <= t
    ensures forall x :: x in t ==> x in p.groupIds || p.id == Some(x) || shareId == Some(x)
  {
    p.groupIds
      + (if p.id.Some? then {p.id.value} else {})
      + (if shareId.Some? then {shareId.value} else {})
  }

  /** `AclDao.checkPermission`: some target holds the permission on the document. */
  predicate HasPermission(acl: set<Ace>, documentId: string, perm: Perm, targets: set<string>) {
    exists t :: t in targets && Ace(documentId, perm, t) in acl
  }

  /** `DocumentDao.getDocument`: the document when it exists and the targets hold `perm` on it. */
  function GetDocument(documents: map<string, Document>, acl: set<Ace>, documentId: string, perm: Perm, targets: set<string>)
    : (d: Option<Document>)
    ensures d.Some? <==> documentId in documents && HasPermission(acl, documentId, perm, targets)
    ensures d.Some? ==> d.value == documents[documentId]
  {
    if documentId in documents && HasPermission(acl, documentId, perm, targets) then Some(documents[documentId])
    else None
  }

  /** The ids of the files attached to a document. */
  function DocumentFileIds(files: Files, documentId: string): (ids: set<string>)
    ensures forall id :: id in ids <==> id in files && files[id].documentId == Some(documentId)
  {
    set id | id in files && files[id].documentId == Some(documentId)
  }

  /** Whether the stored blob can be opened and decrypted with the private key of `userId`. */
  predicate CanDecrypt(storage: Storage, blob: string, userId: string) {
    && blob in storage.blobs
    && userId in storage.userKeys
    && storage.blobs[blob] == storage.userKeys[userId]
  }
}
