/**
 * Who may see a file: `findFile`, `findFiles` and `checkFileAccessible` of
 * the file resource, and the version list built on them.
 */
module FileAccess {
  import opened Wrappers
  import opened FileEntities

  /**
   * `checkFileAccessible`: an orphan file is visible to its owner only; an
   * attached file to whoever holds READ on its document, the share counting
   * as a target.
   */
  function CheckFileAccessible(p: Principal, acl: set<Ace>, shareId: Option<string>, f: File): (r: Outcome<Error>)
    ensures r.Fail? ==> r.error == Forbidden
    ensures f.documentId.None? ==> (r.Pass? <==> p.id == Some(f.userId))
    ensures f.documentId.Some? ==>
      (r.Pass? <==> exists t :: t in TargetIds(p, shareId) && Ace(f.documentId.value, Read, t) in acl)
  {
    if f.documentId.None? then
      if p.id != Some(f.userId) then Fail(Forbidden) else Pass
    else if !HasPermission(acl, f.documentId.value, Read, TargetIds(p, shareId)) then Fail(Forbidden)
    else Pass
  }

  /** An orphan file is never reachable through a share, a group or an anonymous call: only its owner sees it. */
  lemma OrphanOnlyOwner(p: Principal, acl: set<Ace>, shareId: Option<string>, f: File)
    requires f.documentId.None?
    requires CheckFileAccessible(p, acl, shareId, f).Pass?
    ensures p.id.Some? && p.id.value == f.userId
  {
  }

  /** A READ entry for a share opens every attached file of that document to anyone presenting the share. */
  lemma ShareOpensAttached(p: Principal, acl: set<Ace>, shareId: string, f: File)
    requires f.documentId.Some? && Ace(f.documentId.value, Read, shareId) in acl
    ensures CheckFileAccessible(p, acl, Some(shareId), f).Pass?
  {
    assert shareId in TargetIds(p, Some(shareId));
  }

  /** `findFile`: NotFound for an unknown id, otherwise the file if it is accessible. */
  function FindFile(files: Files, p: Principal, acl: set<Ace>, id: string, shareId: Option<string>): (r: Result<File, Error>)
    ensures id !in files <==> r == Failure(NotFound)
    ensures r.Success? <==> id in files && CheckFileAccessible(p, acl, shareId, files[id]).Pass?
    ensures r.Success? ==> r.value == files[id]
    ensures r.Failure? && id in files ==> r.error == Forbidden
  {
    if id !in files then Failure(NotFound)
    else match CheckFileAccessible(p, acl, shareId, files[id])
      case Fail(e) => Failure(e)
      case Pass => Success(files[id])
  }

  /** The position of the first occurrence of `x`. */
  function IndexOf(ids: seq<string>, x: string): (k: nat)
    requires x in ids
    ensures k < |ids| && ids[k] == x
    ensures forall j :: 0 <= j < k ==> ids[j] != x
  {
    if ids[0] == x then 0 else 1 + IndexOf(ids[1..], x)
  }

  /** Dropping the last id does not move the first occurrence of an earlier one. */
  lemma IndexOfPrefix(ids: seq<string>, x: string)
    requires ids != [] && x in ids[..|ids| - 1]
    ensures IndexOf(ids, x) == IndexOf(ids[..|ids| - 1], x)
  {
  }

  /**
   * `FileDao.getFiles` (`f.id in :ids`): every stored file whose id is
   * listed, each once, in the order of first listing; unknown ids are skipped.
   */
  function GetFiles(files: Files, ids: seq<string>): (fs: seq<File>)
    requires WellKeyed(files)
    ensures |fs| <= |ids|
    ensures forall f :: f in fs ==> f.id in ids && f.id in files && files[f.id] == f
    ensures forall id :: id in ids && id in files ==> files[id] in fs
    ensures forall i, j :: 0 <= i < j < |fs| ==> fs[i] != fs[j]
  {
    if ids == [] then []
    else
      var front := ids[..|ids| - 1];
      var last := ids[|ids| - 1];
      var rest := GetFiles(files, front);
      assert forall id :: id in ids ==> id in front || id == last;
      if last in files && files[last] !in rest then rest + [files[last]] else rest
  }

  /** Of two files returned, the earlier one's id is listed first. */
  lemma {:induction false} GetFilesOrderAt(files: Files, ids: seq<string>, i: nat, j: nat)
    requires WellKeyed(files)
    requires i < j < |GetFiles(files, ids)|
    ensures IndexOf(ids, GetFiles(files, ids)[i].id) < IndexOf(ids, GetFiles(files, ids)[j].id)
    decreases |ids|
  {
    var front := ids[..|ids| - 1];
    var last := ids[|ids| - 1];
    var rest := GetFiles(files, front);
    var fs := GetFiles(files, ids);
    var grows := last in files && files[last] !in rest;
    assert fs == if grows then rest + [files[last]] else rest;
    assert fs[i] == rest[i] && fs[i] in rest;
    IndexOfPrefix(ids, rest[i].id);
    if j < |rest| {
      assert fs[j] == rest[j] && fs[j] in rest;
      IndexOfPrefix(ids, rest[j].id);
      GetFilesOrderAt(files, front, i, j);
    } else {
      assert last !in front;
      assert fs[j].id == last;
    }
  }

  /** The files come in the order their ids are first listed. */
  lemma GetFilesOrder(files: Files, ids: seq<string>)
    requires WellKeyed(files)
    ensures var fs := GetFiles(files, ids);
      forall i, j :: 0 <= i < j < |fs| ==> IndexOf(ids, fs[i].id) < IndexOf(ids, fs[j].id)
  {
    var fs := GetFiles(files, ids);
    forall i, j | 0 <= i < j < |fs|
      ensures IndexOf(ids, fs[i].id) < IndexOf(ids, fs[j].id)
    {
      GetFilesOrderAt(files, ids, i, j);
    }
  }

  /** `findFiles`: every listed file must be accessible, else Forbidden. */
  function CheckAll(p: Principal, acl: set<Ace>, fs: seq<File>): (r: Outcome<Error>)
    ensures r.Pass? <==> forall i :: 0 <= i < |fs| ==> CheckFileAccessible(p, acl, None, fs[i]).Pass?
    ensures r.Fail? ==> r.error == Forbidden
  {
    if fs == [] then Pass
    else match CheckFileAccessible(p, acl, None, fs[0])
      case Fail(e) => Fail(e)
      case Pass => CheckAll(p, acl, fs[1..])
  }

  function FindFiles(files: Files, p: Principal, acl: set<Ace>, ids: seq<string>): (r: Result<seq<File>, Error>)
    requires WellKeyed(files)
    ensures r.Success? ==> r.value == GetFiles(files, ids)
    ensures r.Success? <==> forall f :: f in GetFiles(files, ids) ==> CheckFileAccessible(p, acl, None, f).Pass?
    ensures r.Failure? ==> r.error == Forbidden
  {
    var fs := GetFiles(files, ids);
    match CheckAll(p, acl, fs)
    case Fail(e) => Failure(e)
    case Pass => Success(fs)
  }

  /** The files sharing a version id (`FileDao.getByVersionId`). */
  function VersionFiles(files: Files, versionId: string): (vs: set<File>)
    ensures forall f :: f in vs <==> f in files.Values && f.versionId == Some(versionId)
  {
    set f | f in files.Values && f.versionId == Some(versionId)
  }

  /**
   * `versions`: Forbidden when anonymous; otherwise the file alone when it
   * has no version id, or every file sharing its version id.
   */
  function Versions(files: Files, p: Principal, acl: set<Ace>, id: string): (r: Result<set<File>, Error>)
    requires WellKeyed(files)
    ensures p.id.None? ==> r == Failure(Forbidden)
    ensures p.id.Some? ==> (r.Failure? <==> FindFile(files, p, acl, id, None).Failure?)
    ensures p.id.Some? && r.Failure? ==> r.error == FindFile(files, p, acl, id, None).error
    ensures r.Success? ==> files[id] in r.value
    ensures r.Success? && files[id].versionId.None? ==> r.value == {files[id]}
    ensures r.Success? && files[id].versionId.Some? ==>
      forall f :: f in r.value <==> f in files.Values && f.versionId == files[id].versionId
  {
    if p.id.None? then Failure(Forbidden)
    else match FindFile(files, p, acl, id, None)
      case Failure(e) => Failure(e)
      case Success(f) =>
        if f.versionId.None? then Success({f}) else Success(VersionFiles(files, f.versionId.value))
  }
}
