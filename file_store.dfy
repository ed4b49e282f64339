/**
 * The file endpoints that change state: `attach`, `reorder` and `delete`.
 * The file table and the list of raised events are the fields of
 * `FileTable`; documents, access-control entries and storage are read-only
 * inputs.
 */
module FileStore {
  import opened Wrappers
  import opened FileEntities
  import opened FileAccess

  // ---- attach ----

  /** The table once the orphan file is attached: it joins the document, placed after the files already there. */
  function Attached(files: Files, fileId: string, documentId: string): Files
    requires fileId in files
  {
    files[fileId := files[fileId].(documentId := Some(documentId), order := |DocumentFileIds(files, documentId)|)]
  }

  /** The files of a document are numbered 0, 1, 2, ... without gaps or repetitions. */
  predicate DenseOrders(files: Files, documentId: string) {
    var ids := DocumentFileIds(files, documentId);
    && (forall id :: id in ids ==> 0 <= files[id].order < |ids|)
    && (forall a, b :: a in ids && b in ids && a != b ==> files[a].order != files[b].order)
  }

  /** Attaching an orphan file to a document numbered without gaps keeps it numbered without gaps. */
  lemma AttachKeepsOrdersDense(files: Files, fileId: string, documentId: string)
    requires fileId in files && files[fileId].documentId.None?
    requires DenseOrders(files, documentId)
    ensures DocumentFileIds(Attached(files, fileId, documentId), documentId) == DocumentFileIds(files, documentId) + {fileId}
    ensures DenseOrders(Attached(files, fileId, documentId), documentId)
  {
    var before := DocumentFileIds(files, documentId);
    var after' := Attached(files, fileId, documentId);
    var after := DocumentFileIds(after', documentId);
    assert fileId !in before;
    assert after == before + {fileId};
    assert |after| == |before| + 1;
  }

  /** Attaching changes the attached file only; every other file, and the table's keys, are untouched. */
  lemma AttachTouchesOneFile(files: Files, fileId: string, documentId: string)
    requires fileId in files
    ensures Attached(files, fileId, documentId).Keys == files.Keys
    ensures forall id :: id in files && id != fileId ==> Attached(files, fileId, documentId)[id] == files[id]
    ensures Attached(files, fileId, documentId)[fileId].documentId == Some(documentId)
    ensures Attached(files, fileId, documentId)[fileId].order == |DocumentFileIds(files, documentId)|
  {
  }

  // ---- reorder ----

  /** `List.lastIndexOf`: the last position of `x` in `s`, or -1. */
  function LastIndexOf(s: seq<string>, x: string): (r: int)
    ensures -1 <= r < |s|
    ensures r == -1 <==> x !in s
    ensures r >= 0 ==> s[r] == x && forall j :: r < j < |s| ==> s[j] != x
  {
    if s == [] then -1
    else if s[|s| - 1] == x then |s| - 1
    else LastIndexOf(s[..|s| - 1], x)
  }

  /** The file after reordering: a file of the document named in the list takes the last position of its id. */
  function ReorderedFile(f: File, documentId: string, idList: seq<string>): File {
    if f.documentId == Some(documentId) && LastIndexOf(idList, f.id) != -1 then f.(order := LastIndexOf(idList, f.id))
    else f
  }

  function Reordered(files: Files, documentId: string, idList: seq<string>): Files {
    map id | id in files :: ReorderedFile(files[id], documentId, idList)
  }

  lemma ReorderedOutside(files: Files, documentId: string, idList: seq<string>)
    ensures Reordered(files, documentId, idList).Keys == files.Keys
    ensures forall id :: id in files && id !in DocumentFileIds(files, documentId) ==>
      Reordered(files, documentId, idList)[id] == files[id]
  {
  }

  lemma ReorderedInside(files: Files, documentId: string, idList: seq<string>, id: string)
    requires WellKeyed(files) && id in DocumentFileIds(files, documentId)
    ensures Reordered(files, documentId, idList)[id] ==
      if LastIndexOf(idList, id) != -1 then files[id].(order := LastIndexOf(idList, id)) else files[id]
  {
  }

  /**
   * After reordering, files of the document named in the list have pairwise
   * distinct orders, each below the list's length, even when the list
   * repeats ids; so when the list names all of them, the document's orders
   * are distinct.
   */
  lemma ReorderedDistinct(files: Files, documentId: string, idList: seq<string>)
    requires WellKeyed(files)
    ensures var r := Reordered(files, documentId, idList);
      forall a, b :: a in files && b in files && a != b
        && files[a].documentId == Some(documentId) && files[b].documentId == Some(documentId)
        && a in idList && b in idList
        ==> r[a].order != r[b].order && 0 <= r[a].order < |idList|
  {
  }

  /** Files of other documents, and files missing from the list, keep their order. */
  lemma ReorderedKeepsOthers(files: Files, documentId: string, idList: seq<string>)
    requires WellKeyed(files)
    ensures Reordered(files, documentId, idList).Keys == files.Keys
    ensures forall id :: id in files && (files[id].documentId != Some(documentId) || id !in idList) ==>
      Reordered(files, documentId, idList)[id] == files[id]
    ensures forall id :: id in files ==>
      Reordered(files, documentId, idList)[id] == files[id].(order := Reordered(files, documentId, idList)[id].order)
  {
  }

  // ---- delete ----

  /** The events a deletion raises: the file deleted with its size, then the document updated when it had one. */
  function DeleteEvents(userId: string, f: File): (es: seq<Event>)
    ensures 1 <= |es| <= 2 && es[0] == FileDeleted(userId, f.id, f.size)
    ensures |es| == 2 <==> f.documentId.Some?
    ensures |es| == 2 ==> es[1] == DocumentUpdated(userId, f.documentId.value)
  {
    [FileDeleted(userId, f.id, f.size)] + if f.documentId.Some? then [DocumentUpdated(userId, f.documentId.value)] else []
  }

  class FileTable {
    var files: Files
    /** The events raised so far, in order; stands for the request's list of asynchronous events. */
    var events: seq<Event>

    ghost predicate Valid()
      reads this
    {
      WellKeyed(files)
    }

    constructor (files0: Files)
      requires WellKeyed(files0)
      ensures Valid() && files == files0 && events == []
    {
      files := files0;
      events := [];
    }

    /**
     * `attach`: Forbidden when anonymous, ValidationError without a document
     * id, NotFound unless the caller owns the file and may WRITE the document,
     * IllegalFile when the file is already attached. Otherwise the file is
     * attached and placed last; it is then prepared for processing, which
     * needs its owner's key: on success a FileUpdated and a DocumentUpdated
     * event are raised, otherwise AttachError, and the request's transaction
     * is rolled back, which detaches the file again.
     */
    method Attach(p: Principal, documents: map<string, Document>, acl: set<Ace>, storage: Storage,
                  fileId: string, documentId: Option<string>)
      returns (r: Outcome<Error>)
      requires Valid()
      modifies this
      ensures Valid()
      ensures p.id.None? ==> r == Fail(Forbidden)
      ensures p.id.Some? && documentId.None? ==> r == Fail(ValidationError)
      ensures (p.id.Some? && documentId.Some? &&
               (fileId !in old(files) || old(files)[fileId].userId != p.id.value
                || GetDocument(documents, acl, documentId.value, Write, TargetIds(p, None)).None?)) ==>
        r == Fail(NotFound)
      ensures (p.id.Some? && documentId.Some? && fileId in old(files) && old(files)[fileId].userId == p.id.value
               && GetDocument(documents, acl, documentId.value, Write, TargetIds(p, None)).Some?
               && old(files)[fileId].documentId.Some?) ==>
        r == Fail(IllegalFile)
      ensures r.Pass? ==>
        && p.id.Some? && documentId.Some? && fileId in old(files)
        && files == Attached(old(files), fileId, documentId.value)
      ensures r.Pass? ==>
        events == old(events) + [FileUpdated(p.id.value, fileId, documents[documentId.value].language),
                                 DocumentUpdated(p.id.value, documentId.value)]
      ensures r.Pass? <==>
        && p.id.Some? && documentId.Some? && fileId in old(files) && old(files)[fileId].userId == p.id.value
        && GetDocument(documents, acl, documentId.value, Write, TargetIds(p, None)).Some?
        && old(files)[fileId].documentId.None?
        && CanDecrypt(storage, fileId, p.id.value)
      ensures (p.id.Some? && documentId.Some? && fileId in old(files) && old(files)[fileId].userId == p.id.value
               && GetDocument(documents, acl, documentId.value, Write, TargetIds(p, None)).Some?
               && old(files)[fileId].documentId.None? && !CanDecrypt(storage, fileId, p.id.value)) ==>
        r == Fail(AttachError)
      ensures r.Fail? ==> files == old(files) && events == old(events)
    {
      if p.id.None? {
        return Fail(Forbidden);
      }
      if documentId.None? {
        return Fail(ValidationError);
      }
      var userId := p.id.value;
      var docId := documentId.value;
      var documentDto := GetDocument(documents, acl, docId, Write, TargetIds(p, None));
      if fileId !in files || files[fileId].userId != userId || documentDto.None? {
        return Fail(NotFound);
      }
      var file := files[fileId];
      if file.documentId.Some? {
        return Fail(IllegalFile);
      }
      var filesBefore := files;
      var order := |DocumentFileIds(files, docId)|;
      files := files[fileId := file.(documentId := Some(docId), order := order)];
      if !CanDecrypt(storage, fileId, userId) {
        files := filesBefore;  // the transaction is rolled back
        return Fail(AttachError);
      }
      events := events + [FileUpdated(userId, fileId, documentDto.value.language)];
      events := events + [DocumentUpdated(userId, docId)];
      return Pass;
    }

    /**
     * `reorder`: Forbidden when anonymous, ValidationError without a document
     * id or a list, NotFound without WRITE on the document. Otherwise every
     * file of the document takes the last position of its id in the list
     * (files not in the list keep theirs) and one DocumentUpdated event is raised.
     */
    method Reorder(p: Principal, acl: set<Ace>, documentId: Option<string>, idList: Option<seq<string>>)
      returns (r: Outcome<Error>)
      requires Valid()
      modifies this
      ensures Valid()
      ensures p.id.None? ==> r == Fail(Forbidden)
      ensures p.id.Some? && (documentId.None? || idList.None?) ==> r == Fail(ValidationError)
      ensures p.id.Some? && documentId.Some? && idList.Some? ==>
        (r == Fail(NotFound) <==> !HasPermission(acl, documentId.value, Write, TargetIds(p, None)))
      ensures r.Pass? <==>
        p.id.Some? && documentId.Some? && idList.Some? && HasPermission(acl, documentId.value, Write, TargetIds(p, None))
      ensures r.Fail? ==> files == old(files) && events == old(events)
      ensures r.Pass? ==>
        && p.id.Some? && documentId.Some? && idList.Some?
        && files == Reordered(old(files), documentId.value, idList.value)
        && events == old(events) + [DocumentUpdated(p.id.value, documentId.value)]
    {
      if p.id.None? {
        return Fail(Forbidden);
      }
      if documentId.None? || idList.None? {
        return Fail(ValidationError);
      }
      var docId, ids := documentId.value, idList.value;
      if !HasPermission(acl, docId, Write, TargetIds(p, None)) {
        return Fail(NotFound);
      }
      SetOrders(docId, ids);
      events := events + [DocumentUpdated(p.id.value, docId)];
      return Pass;
    }

    /** The loop of `reorder`: each file of the document whose id is listed takes the id's last position. */
    method SetOrders(docId: string, ids: seq<string>)
      requires Valid()
      modifies this
      ensures Valid()
      ensures files == Reordered(old(files), docId, ids)
      ensures events == old(events)
    {
      ghost var before := files;
      ghost var target := Reordered(before, docId, ids);
      var todo := DocumentFileIds(files, docId);
      ReorderedOutside(before, docId, ids);
      while todo != {}
        invariant todo <= DocumentFileIds(before, docId)
        invariant files.Keys == before.Keys
        invariant forall id :: id in files ==> files[id] == (if id in todo then before[id] else target[id])
        invariant events == old(events)
        decreases |todo|
      {
        var id :| id in todo;
        var order := LastIndexOf(ids, id);
        ReorderedInside(before, docId, ids, id);
        if order != -1 {
          files := files[id := files[id].(order := order)];
        }
        todo := todo - {id};
      }
      assert files == target;
    }

    /**
     * `delete`: Forbidden when anonymous; the file must be found and visible
     * (`findFile`, READ access suffices). The file leaves the table and the
     * deletion events are raised.
     */
    method Delete(p: Principal, acl: set<Ace>, fileId: string) returns (r: Outcome<Error>)
      requires Valid()
      modifies this
      ensures Valid()
      ensures p.id.None? ==> r == Fail(Forbidden)
      ensures p.id.Some? ==> (r.Fail? <==> FindFile(old(files), p, acl, fileId, None).Failure?)
      ensures p.id.Some? && r.Fail? ==> r.error == FindFile(old(files), p, acl, fileId, None).error
      ensures r.Fail? ==> files == old(files) && events == old(events)
      ensures r.Pass? ==>
        && p.id.Some? && fileId in old(files)
        && files == old(files) - {fileId}
        && events == old(events) + DeleteEvents(p.id.value, old(files)[fileId])
    {
      if p.id.None? {
        return Fail(Forbidden);
      }
      var found := FindFile(files, p, acl, fileId, None);
      if found.Failure? {
        return Fail(found.error);
      }
      var file := found.value;
      files := files - {file.id};
      events := events + [FileDeleted(p.id.value, file.id, file.size)];
      if file.documentId.Some? {
        events := events + [DocumentUpdated(p.id.value, file.documentId.value)];
      }
      return Pass;
    }
  }
}
