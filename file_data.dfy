/**
 * Serving file bytes: the `data` endpoint's choice of variant, content type
 * and cache headers, and the ZIP download (`zip` and `sendZippedFiles`):
 * archive name, entry names, entry order and abort on the first unreadable file.
 * The bytes themselves (decryption, streaming, the ZIP container) are not modelled.
 */
module FileData {
  import opened Wrappers
  import opened Decimal
  import opened FileEntities
  import opened FileAccess

  /** Where streamed bytes come from: a stored (encrypted) blob or an image bundled with the application. */
  datatype Source = StoredBlob(name: string) | BundledImage(path: string)

  /** The `Expires` header: a date this many milliseconds from now, or the literal "0". */
  datatype Expires = ExpiresAfter(millis: int) | ExpiresZero

  datatype DataResponse =
    | TextBody(text: string, contentType: string)
    | Stream(source: Source, decrypted: bool, disposition: string, contentType: string,
             cacheControl: string, expires: Expires)
    | ServiceUnavailable

  /** Real files are cached for one year. */
  const OneYearMillis: int := 3_600_000 * 24 * 365

  const ImageJpeg: string := "image/jpeg"
  const ImagePng: string := "image/png"
  const TextPlain: string := "text/plain; charset=utf-8"

  /** The size variants `data` accepts. */
  predicate KnownSize(size: string) {
    size == "web" || size == "thumb" || size == "content"
  }

  /** `Strings.nullToEmpty`. */
  function NullToEmpty(s: Option<string>): string {
    if s.Some? then s.value else ""
  }

  /** The stored blob of a variant: the file id, '_' and the size name. */
  function VariantBlob(fileId: string, size: string): string {
    fileId + "_" + size
  }

  /** The bundled placeholder for a variant that was never generated. */
  function PlaceholderPath(size: string): string {
    "/image/file-" + size + ".png"
  }

  /**
   * `data`. The size is validated before the file is looked up. "content"
   * answers the extracted text; "web" and "thumb" answer the JPEG variant,
   * or the bundled PNG placeholder when the variant is absent; no size
   * answers the original file with its own MIME type. Encrypted bytes are
   * decrypted with the key of the file's owner and cached privately for a
   * year; the placeholder is sent as is and never cached. A blob that
   * cannot be opened or decrypted gives 503.
   * `fullName` is `File.getFullName`.
   */
  function Data(files: Files, p: Principal, acl: set<Ace>, storage: Storage, fileId: string,
                shareId: Option<string>, size: Option<string>, fullName: (File, string) -> string)
    : (r: Result<DataResponse, Error>)
    ensures size.Some? && !KnownSize(size.value) ==> r == Failure(SizeError)
    ensures (size.None? || KnownSize(size.value)) ==>
      (r.Failure? <==> FindFile(files, p, acl, fileId, shareId).Failure?)
    ensures (size.None? || KnownSize(size.value)) && r.Failure? ==>
      r.error == FindFile(files, p, acl, fileId, shareId).error
    ensures r.Success? && size == Some("content") ==>
      r.value == TextBody(NullToEmpty(files[fileId].content), TextPlain)
    ensures r.Success? && r.value.Stream? ==>
      && r.value.disposition == "inline; filename=\"" + fullName(files[fileId], "data") + "\""
      && (r.value.decrypted <==> r.value.source.StoredBlob?)
      && (r.value.decrypted ==> CanDecrypt(storage, r.value.source.name, files[fileId].userId))
      && (r.value.decrypted ==> r.value.cacheControl == "private" && r.value.expires == ExpiresAfter(OneYearMillis))
      && (!r.value.decrypted ==> r.value.cacheControl == "no-store, must-revalidate" && r.value.expires == ExpiresZero)
    ensures r.Success? && size.None? && r.value.Stream? ==>
      r.value.source == StoredBlob(fileId) && r.value.contentType == files[fileId].mimeType
    ensures r.Success? && size != Some("content") ==> !r.value.TextBody?
    ensures r.Success? && size.None? ==>
      (r.value == ServiceUnavailable <==> !CanDecrypt(storage, fileId, files[fileId].userId))
    ensures (r.Success? && size.Some? && size.value != "content" && VariantBlob(fileId, size.value) in storage.blobs) ==>
      (r.value == ServiceUnavailable <==> !CanDecrypt(storage, VariantBlob(fileId, size.value), files[fileId].userId))
    ensures r.Success? && size.Some? && size.value != "content" ==>
      if VariantBlob(fileId, size.value) in storage.blobs then
        r.value.Stream? ==> r.value.source == StoredBlob(VariantBlob(fileId, size.value)) && r.value.contentType == ImageJpeg
      else
        r.value == Stream(BundledImage(PlaceholderPath(size.value)), false,
                          "inline; filename=\"" + fullName(files[fileId], "data") + "\"",
                          ImagePng, "no-store, must-revalidate", ExpiresZero)
  {
    if size.Some? && !KnownSize(size.value) then Failure(SizeError)
    else match FindFile(files, p, acl, fileId, shareId)
      case Failure(e) => Failure(e)
      case Success(file) =>
        if size == Some("content") then Success(TextBody(NullToEmpty(file.content), TextPlain))
        else
          var (source, mimeType, decrypt) :=
            if size.Some? then
              if VariantBlob(fileId, size.value) in storage.blobs then (StoredBlob(VariantBlob(fileId, size.value)), ImageJpeg, true)
              else (BundledImage(PlaceholderPath(size.value)), ImagePng, false)
            else (StoredBlob(fileId), file.mimeType, true);
          if decrypt && !CanDecrypt(storage, source.name, file.userId) then Success(ServiceUnavailable)
          else
            var disposition := "inline; filename=\"" + fullName(file, "data") + "\"";
            if decrypt then Success(Stream(source, true, disposition, mimeType, "private", ExpiresAfter(OneYearMillis)))
            else Success(Stream(source, false, disposition, mimeType, "no-store, must-revalidate", ExpiresZero))
  }

  /** Whatever the caller, a file it may not see yields no bytes at all, even with a bad size. */
  lemma DataNeedsAccess(files: Files, p: Principal, acl: set<Ace>, storage: Storage, fileId: string,
                        shareId: Option<string>, size: Option<string>, fullName: (File, string) -> string)
    requires fileId in files && CheckFileAccessible(p, acl, shareId, files[fileId]).Fail?
    ensures Data(files, p, acl, storage, fileId, shareId, size, fullName).Failure?
  {
  }

  // ---- ZIP download ----

  /** Java's `\w`: an ASCII letter, digit or underscore. */
  predicate IsWordChar(c: char) {
    ('a' <= c <= 'z') || ('A' <= c <= 'Z') || ('0' <= c <= '9') || c == '_'
  }

  predicate AllWord(s: string) {
    forall i :: 0 <= i < |s| ==> IsWordChar(s[i])
  }

  /** The input without its leading non-word characters. */
  function DropNonWord(s: string): (r: string)
    ensures |r| <= |s|
    ensures r == [] || IsWordChar(r[0])
    ensures r == s[|s| - |r|..]
    ensures forall i :: 0 <= i < |s| - |r| ==> !IsWordChar(s[i])
  {
    if s == [] || IsWordChar(s[0]) then s else DropNonWord(s[1..])
  }

  /** `replaceAll("\\W+", "_")`: every maximal run of non-word characters becomes one underscore. */
  function ReplaceNonWordRuns(s: string): (r: string)
    decreases |s|
  {
    if s == [] then []
    else if IsWordChar(s[0]) then [s[0]] + ReplaceNonWordRuns(s[1..])
    else "_" + ReplaceNonWordRuns(DropNonWord(s[1..]))
  }

  /** The letters and digits of a string, in order. */
  function Alnum(s: string): seq<char> {
    if s == [] then []
    else if IsWordChar(s[0]) && s[0] != '_' then [s[0]] + Alnum(s[1..])
    else Alnum(s[1..])
  }

  /** The archive name is made of word characters only, keeps every letter and digit in order, and is no longer than the title. */
  lemma {:induction false} ReplaceNonWordRunsSpec(s: string)
    ensures AllWord(ReplaceNonWordRuns(s))
    ensures Alnum(ReplaceNonWordRuns(s)) == Alnum(s)
    ensures |ReplaceNonWordRuns(s)| <= |s|
    decreases |s|
  {
    if s != [] {
      if IsWordChar(s[0]) {
        ReplaceNonWordRunsSpec(s[1..]);
        var r := ReplaceNonWordRuns(s[1..]);
        assert ([s[0]] + r)[1..] == r;
      } else {
        var d := DropNonWord(s[1..]);
        ReplaceNonWordRunsSpec(d);
        AlnumDrop(s[1..]);
        var r := ReplaceNonWordRuns(d);
        assert ("_" + r)[1..] == r;
      }
    }
  }

  lemma {:induction false} AlnumDrop(s: string)
    ensures Alnum(DropNonWord(s)) == Alnum(s)
    decreases |s|
  {
    if s != [] && !IsWordChar(s[0]) {
      AlnumDrop(s[1..]);
    }
  }

  /** A title made of word characters is kept as it is; hence the renaming is idempotent. */
  lemma {:induction false} ReplaceNonWordRunsKeepsWords(s: string)
    requires AllWord(s)
    ensures ReplaceNonWordRuns(s) == s
    decreases |s|
  {
    if s != [] {
      ReplaceNonWordRunsKeepsWords(s[1..]);
    }
  }

  lemma ReplaceNonWordRunsIdempotent(s: string)
    ensures ReplaceNonWordRuns(ReplaceNonWordRuns(s)) == ReplaceNonWordRuns(s)
  {
    ReplaceNonWordRunsSpec(s);
    ReplaceNonWordRunsKeepsWords(ReplaceNonWordRuns(s));
  }

  /** No character of the string is a word character. */
  predicate NoWord(s: string) {
    forall i :: 0 <= i < |s| ==> !IsWordChar(s[i])
  }

  /** Skipping non-word characters stops at the first word character, whatever follows it. */
  lemma {:induction false} DropNonWordAppend(s: string, u: string)
    requires exists i :: 0 <= i < |s| && IsWordChar(s[i])
    ensures DropNonWord(s + u) == DropNonWord(s) + u
    decreases |s|
  {
    if !IsWordChar(s[0]) {
      var i :| 0 <= i < |s| && IsWordChar(s[i]);
      assert i > 0 && IsWordChar(s[1..][i - 1]);
      assert (s + u)[1..] == s[1..] + u;
      DropNonWordAppend(s[1..], u);
    }
  }

  /** A run of non-word characters is skipped up to the next word character. */
  lemma {:induction false} DropNonWordRun(n: string, t: string)
    requires NoWord(n)
    requires t == [] || IsWordChar(t[0])
    ensures DropNonWord(n + t) == t
    decreases |n|
  {
    if n != [] {
      assert (n + t)[1..] == n[1..] + t;
      DropNonWordRun(n[1..], t);
    }
  }

  /**
   * Each maximal run of non-word characters becomes exactly one '_': a run
   * between a part ending in a word character (or the start) and a part
   * starting with one (or the end) turns into a single underscore, and the
   * parts on either side are renamed on their own.
   */
  lemma {:induction false} ReplaceNonWordRunsSplit(w: string, n: string, t: string)
    requires w == [] || IsWordChar(w[|w| - 1])
    requires n != [] && NoWord(n)
    requires t == [] || IsWordChar(t[0])
    ensures ReplaceNonWordRuns(w + n + t) == ReplaceNonWordRuns(w) + "_" + ReplaceNonWordRuns(t)
    decreases |w|
  {
    if w == [] {
      SplitLeadingRun(n, t);
    } else if IsWordChar(w[0]) {
      ReplaceNonWordRunsSplit(w[1..], n, t);
      SplitAfterWord(w, n, t);
    } else {
      var v := w[1..];
      assert IsWordChar(v[|v| - 1]);
      DropNonWordAppend(v, n + t);
      var d := DropNonWord(v);
      DropNonWordEndsInWord(v);
      ReplaceNonWordRunsSplit(d, n, t);
      SplitAfterNonWord(w, n, t);
    }
  }

  /** A title that starts with a run of non-word characters begins with one '_'. */
  lemma SplitLeadingRun(n: string, t: string)
    requires n != [] && NoWord(n)
    requires t == [] || IsWordChar(t[0])
    ensures ReplaceNonWordRuns([] + n + t) == ReplaceNonWordRuns([]) + "_" + ReplaceNonWordRuns(t)
  {
    var s := n + t;
    assert [] + n + t == s;
    assert s[1..] == n[1..] + t;
    DropNonWordRun(n[1..], t);
  }

  /** The split carries over a leading word character. */
  lemma SplitAfterWord(w: string, n: string, t: string)
    requires w != [] && IsWordChar(w[0])
    requires ReplaceNonWordRuns(w[1..] + n + t) == ReplaceNonWordRuns(w[1..]) + "_" + ReplaceNonWordRuns(t)
    ensures ReplaceNonWordRuns(w + n + t) == ReplaceNonWordRuns(w) + "_" + ReplaceNonWordRuns(t)
  {
    var rw := ReplaceNonWordRuns(w[1..]);
    var rt := ReplaceNonWordRuns(t);
    TailOfAppend(w, n + t);
    Associative(w, n, t);
    Associative(w[1..], n, t);
    Associative([w[0]], rw + "_", rt);
    Associative([w[0]], rw, "_");
  }

  /** The split carries over a leading run of non-word characters, once the run is skipped. */
  lemma SplitAfterNonWord(w: string, n: string, t: string)
    requires w != [] && !IsWordChar(w[0])
    requires DropNonWord(w[1..] + (n + t)) == DropNonWord(w[1..]) + (n + t)
    requires ReplaceNonWordRuns(DropNonWord(w[1..]) + n + t)
      == ReplaceNonWordRuns(DropNonWord(w[1..])) + "_" + ReplaceNonWordRuns(t)
    ensures ReplaceNonWordRuns(w + n + t) == ReplaceNonWordRuns(w) + "_" + ReplaceNonWordRuns(t)
  {
    var d := DropNonWord(w[1..]);
    var rd := ReplaceNonWordRuns(d);
    var rt := ReplaceNonWordRuns(t);
    TailOfAppend(w, n + t);
    Associative(w, n, t);
    Associative(d, n, t);
    Associative("_", rd + "_", rt);
    Associative("_", rd, "_");
  }

  lemma TailOfAppend(a: string, b: string)
    requires a != []
    ensures (a + b)[0] == a[0] && (a + b)[1..] == a[1..] + b
  {
  }

  lemma Associative(a: string, b: string, c: string)
    ensures a + b + c == a + (b + c)
  {
  }

  /** Skipping non-word characters of a string that ends in a word character leaves that last character. */
  lemma {:induction false} DropNonWordEndsInWord(v: string)
    requires v != [] && IsWordChar(v[|v| - 1])
    ensures DropNonWord(v) != [] && IsWordChar(DropNonWord(v)[|DropNonWord(v)| - 1])
    decreases |v|
  {
    if !IsWordChar(v[0]) {
      assert v[1..][|v[1..]| - 1] == v[|v| - 1];
      DropNonWordEndsInWord(v[1..]);
    }
  }

  datatype ZipEntry = ZipEntry(name: string, fileId: string)

  /** The archive streamed: every entry, or the entries written before the file that could not be read. */
  datatype ZipBody = Complete(entries: seq<ZipEntry>) | Aborted(entries: seq<ZipEntry>, failedAt: nat)

  datatype ZipResponse = ZipResponse(contentType: string, disposition: string, body: ZipBody)

  /** The entry of the file at `index`: the index, '-' and the file's full name for that index. */
  function EntryName(index: nat, f: File, fullName: (File, string) -> string): string {
    DecimalString(index) + "-" + fullName(f, DecimalString(index))
  }

  /** Entry names are pairwise distinct, whatever names the files have: the index before the first '-' tells them apart. */
  lemma EntryNamesDistinct(i: nat, j: nat, f: File, g: File, fullName: (File, string) -> string)
    requires i != j
    ensures EntryName(i, f, fullName) != EntryName(j, g, fullName)
  {
    var di, dj := DecimalString(i), DecimalString(j);
    var a, b := EntryName(i, f, fullName), EntryName(j, g, fullName);
    if |di| < |dj| {
      assert a[|di|] == '-';
      assert b[|di|] == dj[|di|];
      assert IsDigit(dj[|di|]);
    } else if |dj| < |di| {
      assert b[|dj|] == '-';
      assert a[|dj|] == di[|dj|];
      assert IsDigit(di[|dj|]);
    } else if a == b {
      assert di == a[..|di|] && dj == b[..|dj|];
      DecimalStringInjective(i, j);
    }
  }

  /** The entries of the first `n` files, in list order. */
  function Entries(fileList: seq<File>, n: nat, fullName: (File, string) -> string): (es: seq<ZipEntry>)
    requires n <= |fileList|
    ensures |es| == n
    ensures forall i :: 0 <= i < n ==> es[i] == ZipEntry(EntryName(i, fileList[i], fullName), fileList[i].id)
  {
    seq(n, i requires 0 <= i < n => ZipEntry(EntryName(i, fileList[i], fullName), fileList[i].id))
  }

  /**
   * `sendZippedFiles`: one entry per file, in list order, the index counting
   * from 0; the first file whose blob cannot be opened and decrypted with its
   * owner's key aborts the stream after the entries already written.
   */
  method SendZippedFiles(zipFileName: string, fileList: seq<File>, storage: Storage, fullName: (File, string) -> string)
    returns (resp: ZipResponse)
    ensures resp.contentType == "application/zip"
    ensures resp.disposition == "attachment; filename=\"" + zipFileName + ".zip\""
    ensures resp.body.Complete? <==> forall i :: 0 <= i < |fileList| ==> CanDecrypt(storage, fileList[i].id, fileList[i].userId)
    ensures resp.body.Complete? ==> resp.body.entries == Entries(fileList, |fileList|, fullName)
    ensures resp.body.Aborted? ==>
      && resp.body.failedAt < |fileList|
      && !CanDecrypt(storage, fileList[resp.body.failedAt].id, fileList[resp.body.failedAt].userId)
      && (forall i :: 0 <= i < resp.body.failedAt ==> CanDecrypt(storage, fileList[i].id, fileList[i].userId))
      && resp.body.entries == Entries(fileList, resp.body.failedAt, fullName)
  {
    var entries: seq<ZipEntry> := [];
    var index := 0;
    var disposition := "attachment; filename=\"" + zipFileName + ".zip\"";
    while index < |fileList|
      invariant 0 <= index <= |fileList|
      invariant entries == Entries(fileList, index, fullName)
      invariant forall i :: 0 <= i < index ==> CanDecrypt(storage, fileList[i].id, fileList[i].userId)
    {
      var file := fileList[index];
      if !CanDecrypt(storage, file.id, file.userId) {
        return ZipResponse("application/zip", disposition, Aborted(entries, index));
      }
      entries := entries + [ZipEntry(EntryName(index, file, fullName), file.id)];
      index := index + 1;
    }
    return ZipResponse("application/zip", disposition, Complete(entries));
  }

  /**
   * What `FileDao.getByDocumentId` hands back for a document: its stored
   * files, each once, and all of them.
   */
  predicate ListsDocumentFiles(files: Files, documentId: string, listed: seq<File>) {
    && (forall i :: 0 <= i < |listed| ==>
          listed[i].id in files && files[listed[i].id] == listed[i] && listed[i].documentId == Some(documentId))
    && (forall i, j :: 0 <= i < j < |listed| ==> listed[i].id != listed[j].id)
    && (forall id :: id in DocumentFileIds(files, documentId) ==> exists i :: 0 <= i < |listed| && listed[i].id == id)
  }

  /**
   * GET `zip`: NotFound unless the document exists and is readable (the share
   * counting); the archive is named after the title with non-word runs
   * replaced and holds the document's files. `listed` is the document's file
   * list as the DAO returns it.
   */
  method ZipDocument(files: Files, documents: map<string, Document>, acl: set<Ace>, p: Principal, documentId: string,
                     shareId: Option<string>, listed: seq<File>, storage: Storage, fullName: (File, string) -> string)
    returns (r: Result<ZipResponse, Error>)
    requires ListsDocumentFiles(files, documentId, listed)
    ensures r.Failure? <==> GetDocument(documents, acl, documentId, Read, TargetIds(p, shareId)).None?
    ensures r.Failure? ==> r.error == NotFound
    ensures r.Success? ==>
      r.value.disposition == "attachment; filename=\"" + ReplaceNonWordRuns(documents[documentId].title) + ".zip\""
    ensures r.Success? ==>
      (r.value.body.Complete? <==> forall i :: 0 <= i < |listed| ==> CanDecrypt(storage, listed[i].id, listed[i].userId))
    ensures r.Success? && r.value.body.Complete? ==> r.value.body.entries == Entries(listed, |listed|, fullName)
    ensures r.Success? && r.value.body.Aborted? ==>
      && r.value.body.failedAt < |listed|
      && !CanDecrypt(storage, listed[r.value.body.failedAt].id, listed[r.value.body.failedAt].userId)
      && (forall i :: 0 <= i < r.value.body.failedAt ==> CanDecrypt(storage, listed[i].id, listed[i].userId))
      && r.value.body.entries == Entries(listed, r.value.body.failedAt, fullName)
    ensures r.Success? && r.value.body.Complete? ==>
      forall id :: id in DocumentFileIds(files, documentId) <==>
        exists k :: 0 <= k < |r.value.body.entries| && r.value.body.entries[k].fileId == id
  {
    var documentDto := GetDocument(documents, acl, documentId, Read, TargetIds(p, shareId));
    if documentDto.None? {
      return Failure(NotFound);
    }
    var zipFileName := ReplaceNonWordRuns(documentDto.value.title);
    var resp := SendZippedFiles(zipFileName, listed, storage, fullName);
    if resp.body.Complete? {
      var es := resp.body.entries;
      forall id
        ensures id in DocumentFileIds(files, documentId) <==> exists k :: 0 <= k < |es| && es[k].fileId == id
      {
        if id in DocumentFileIds(files, documentId) {
          var i :| 0 <= i < |listed| && listed[i].id == id;
          assert es[i].fileId == id;
        }
      }
    }
    return Success(resp);
  }

  /** POST `zip`: the listed files, each checked for access, in an archive named "files.zip". */
  method ZipFiles(files: Files, p: Principal, acl: set<Ace>, ids: seq<string>, storage: Storage,
                  fullName: (File, string) -> string)
    returns (r: Result<ZipResponse, Error>)
    requires WellKeyed(files)
    ensures r.Failure? <==> FindFiles(files, p, acl, ids).Failure?
    ensures r.Failure? ==> r.error == Forbidden
    ensures r.Success? ==> r.value.disposition == "attachment; filename=\"files.zip\""
    ensures r.Success? ==> var fs := GetFiles(files, ids);
      r.value.body.Complete? <==> forall i :: 0 <= i < |fs| ==> CanDecrypt(storage, fs[i].id, fs[i].userId)
    ensures r.Success? && r.value.body.Complete? ==>
      r.value.body.entries == Entries(GetFiles(files, ids), |GetFiles(files, ids)|, fullName)
    ensures r.Success? && r.value.body.Aborted? ==> var fs := GetFiles(files, ids);
      && r.value.body.failedAt < |fs|
      && !CanDecrypt(storage, fs[r.value.body.failedAt].id, fs[r.value.body.failedAt].userId)
      && (forall i :: 0 <= i < r.value.body.failedAt ==> CanDecrypt(storage, fs[i].id, fs[i].userId))
      && r.value.body.entries == Entries(fs, r.value.body.failedAt, fullName)
  {
    var found := FindFiles(files, p, acl, ids);
    if found.Failure? {
      return Failure(found.error);
    }
    var resp := SendZippedFiles("files", found.value, storage, fullName);
    return Success(resp);
  }
}
