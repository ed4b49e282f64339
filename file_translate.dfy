/**
 * The file-translation endpoint of the file resource: the language-code
 * mapping, the choice of the target language from the request body, the
 * orphan check, the name of the produced file, the splitting of the
 * translated text into lines and its laying out on pages of 40 lines.
 * PDF text extraction and rendering are not modelled: the extracted text is
 * an input and a page is its list of lines.
 */
module FileTranslate {
  import opened Wrappers
  import opened Chunking
  import opened FileEntities
  import opened FileAccess
  import Translation

  // ---- language codes ----

  /**
   * `Character.toUpperCase` on the characters that can make a string equal,
   * ignoring case, to one of the ASCII codes below: ASCII letters, and the
   * long s (U+017F), whose upper case is 'S'.
   */
  function ToUpper(c: char): char {
    if 'a' <= c <= 'z' then (c as int - 32) as char
    else if c == 'ſ' then 'S'
    else c
  }

  /** `String.equalsIgnoreCase` against a code made of ASCII characters. */
  predicate EqualsIgnoreCase(s: string, code: string) {
    |s| == |code| && forall i :: 0 <= i < |s| ==> s[i] == code[i] || ToUpper(s[i]) == ToUpper(code[i])
  }

  /** `trim().isEmpty()`: every character is a space or a control character. */
  predicate IsBlank(s: string) {
    forall i :: 0 <= i < |s| ==> s[i] <= ' '
  }

  /**
   * `mapLangCode`: a missing or blank code means "auto"; eng and en become
   * "en", zh, zh-CHS and zh_CN become "zh-CHS", spa becomes "es" and fra
   * becomes "fr", ignoring case; any other code is passed through.
   */
  function MapLangCode(code: Option<string>): (r: string)
    ensures code.None? || IsBlank(code.value) ==> r == "auto"
    ensures code.Some? && !IsBlank(code.value) ==>
      if EqualsIgnoreCase(code.value, "eng") || EqualsIgnoreCase(code.value, "en") then r == "en"
      else if EqualsIgnoreCase(code.value, "zh") || EqualsIgnoreCase(code.value, "zh-CHS")
           || EqualsIgnoreCase(code.value, "zh_CN") then r == "zh-CHS"
      else if EqualsIgnoreCase(code.value, "spa") then r == "es"
      else if EqualsIgnoreCase(code.value, "fra") then r == "fr"
      else r == code.value
  {
    if code.None? || IsBlank(code.value) then "auto"
    else
      var c := code.value;
      if EqualsIgnoreCase(c, "eng") then "en"
      else if EqualsIgnoreCase(c, "en") then "en"
      else if EqualsIgnoreCase(c, "zh") || EqualsIgnoreCase(c, "zh-CHS") || EqualsIgnoreCase(c, "zh_CN") then "zh-CHS"
      else if EqualsIgnoreCase(c, "spa") then "es"
      else if EqualsIgnoreCase(c, "fra") then "fr"
      else c
  }

  /** Mapping a mapped code again changes nothing: every result is a fixed point. */
  lemma MapLangCodeIdempotent(code: Option<string>)
    ensures MapLangCode(Some(MapLangCode(code))) == MapLangCode(code)
  {
    var r := MapLangCode(code);
    assert !IsBlank(r) by {
      if code.Some? && !IsBlank(code.value) && r == code.value {
      } else {
        assert r[0] > ' ';
      }
    }
    if r == "en" {
      assert EqualsIgnoreCase(r, "en");
    } else if r == "zh-CHS" {
      assert !EqualsIgnoreCase(r, "eng") && !EqualsIgnoreCase(r, "en") && !EqualsIgnoreCase(r, "zh");
      assert EqualsIgnoreCase(r, "zh-CHS");
    } else if r == "es" {
      assert !EqualsIgnoreCase(r, "en") by { assert ToUpper(r[1]) != ToUpper("en"[1]); }
      assert !EqualsIgnoreCase(r, "zh") by { assert ToUpper(r[0]) != ToUpper("zh"[0]); }
    } else if r == "fr" {
      assert !EqualsIgnoreCase(r, "en") by { assert ToUpper(r[0]) != ToUpper("en"[0]); }
      assert !EqualsIgnoreCase(r, "zh") by { assert ToUpper(r[0]) != ToUpper("zh"[0]); }
    } else if r == "auto" {
      assert |r| == 4;
    }
  }

  /**
   * Each spelling of the table, in any case, gets its own provider code. The
   * spellings exclude one another, so the order of the tests does not matter.
   */
  lemma MapLangCodeKnown(code: string)
    ensures EqualsIgnoreCase(code, "eng") ==> MapLangCode(Some(code)) == "en"
    ensures EqualsIgnoreCase(code, "en") ==> MapLangCode(Some(code)) == "en"
    ensures EqualsIgnoreCase(code, "zh") ==> MapLangCode(Some(code)) == "zh-CHS"
    ensures EqualsIgnoreCase(code, "zh-CHS") ==> MapLangCode(Some(code)) == "zh-CHS"
    ensures EqualsIgnoreCase(code, "zh_CN") ==> MapLangCode(Some(code)) == "zh-CHS"
    ensures EqualsIgnoreCase(code, "spa") ==> MapLangCode(Some(code)) == "es"
    ensures EqualsIgnoreCase(code, "fra") ==> MapLangCode(Some(code)) == "fr"
  {
    if |code| > 0 {
      var u := ToUpper(code[0]);
      if EqualsIgnoreCase(code, "zh") || EqualsIgnoreCase(code, "zh-CHS") || EqualsIgnoreCase(code, "zh_CN") {
        assert u == 'Z';
      } else if EqualsIgnoreCase(code, "spa") {
        assert u == 'S';
      } else if EqualsIgnoreCase(code, "fra") {
        assert u == 'F';
      }
    }
  }

  // ---- the target language ----

  /** `String.contains`: `t` occurs somewhere in `s`. */
  predicate IsSubstring(t: string, s: string)
    decreases |s|
  {
    |t| <= |s| && (s[..|t|] == t || (s != [] && IsSubstring(t, s[1..])))
  }

  /**
   * The `to` field of the request: read from a JSON body (where `jsonTo` is
   * what the JSON reader yields for "to", None when the body is not an object
   * with a string "to"), or from a form body starting with "to=", decoded by
   * `urlDecode` (None where `URLDecoder.decode` throws on a malformed escape,
   * which nothing catches); None for any other content type.
   */
  function TargetLanguage(contentType: Option<string>, body: Option<string>, jsonTo: Option<string>,
                          urlDecode: string -> Option<string>)
    : (r: Result<Option<string>, Error>)
    ensures contentType.Some? && IsSubstring("application/json", contentType.value) ==>
      (r.Failure? <==> jsonTo.None?) && (r.Failure? ==> r.error == InvalidRequest) && (r.Success? ==> r.value == jsonTo)
    ensures (&& !(contentType.Some? && IsSubstring("application/json", contentType.value))
             && contentType.Some? && IsSubstring("application/x-www-form-urlencoded", contentType.value)
             && body.Some? && |body.value| >= 3 && body.value[..3] == "to=") ==>
      (r.Failure? <==> urlDecode(body.value[3..]).None?) && (r.Failure? ==> r.error == ServerError)
      && (r.Success? ==> r.value == urlDecode(body.value[3..]))
    ensures r.Success? && r.value.Some? && !(contentType.Some? && IsSubstring("application/json", contentType.value)) ==>
      && body.Some? && |body.value| >= 3 && body.value[..3] == "to="
      && Some(r.value.value) == urlDecode(body.value[3..])
    ensures (&& !(contentType.Some? && IsSubstring("application/json", contentType.value))
             && !(contentType.Some? && IsSubstring("application/x-www-form-urlencoded", contentType.value))) ==>
      r == Success(None)
  {
    if contentType.Some? && IsSubstring("application/json", contentType.value) then
      if jsonTo.None? then Failure(InvalidRequest) else Success(jsonTo)
    else if contentType.Some? && IsSubstring("application/x-www-form-urlencoded", contentType.value) then
      if body.Some? && |body.value| >= 3 && body.value[..3] == "to=" then
        match urlDecode(body.value[3..])
        case None => Failure(ServerError)
        case Some(to) => Success(Some(to))
      else Success(None)
    else Success(None)
  }

  /** The name of the translated file: the original name ("null" when it has none), '_', the raw target code, ".pdf". */
  function OutputName(name: Option<string>, to: string): (n: string)
    ensures |n| >= |to| + 5
    ensures n[|n| - |to| - 5..] == "_" + to + ".pdf"
  {
    var base := if name.Some? then name.value else "null";
    base + "_" + to + ".pdf"
  }

  // ---- lines ----

  /** The position of the first '\n'. */
  function FirstNewline(s: string): (i: nat)
    requires '\n' in s
    ensures i < |s| && s[i] == '\n' && '\n' !in s[..i]
  {
    if s[0] == '\n' then 0
    else
      assert '\n' in s[1..] by {
        var k :| 0 <= k < |s| && s[k] == '\n';
        assert s[1..][k - 1] == '\n';
      }
      var i := 1 + FirstNewline(s[1..]);
      assert s[..i] == [s[0]] + s[1..][..i - 1];
      i
  }

  /** The pieces between line breaks, a break being "\n" or "\r\n". */
  function Pieces(s: string): (ps: seq<string>)
    ensures |ps| >= 1
    ensures forall k :: 0 <= k < |ps| ==> '\n' !in ps[k]
    decreases |s|
  {
    if '\n' !in s then [s]
    else
      var i := FirstNewline(s);
      var piece := if i > 0 && s[i - 1] == '\r' then s[..i - 1] else s[..i];
      assert '\n' !in piece by {
        assert piece == s[..i][..|piece|];
      }
      [piece] + Pieces(s[i + 1..])
  }

  function DropTrailingEmpty(ps: seq<string>): (r: seq<string>)
    ensures |r| <= |ps| && r == ps[..|r|]
    ensures r == [] || r[|r| - 1] != ""
    ensures forall k :: |r| <= k < |ps| ==> ps[k] == ""
  {
    if ps == [] || ps[|ps| - 1] != "" then ps else DropTrailingEmpty(ps[..|ps| - 1])
  }

  /**
   * `split("\\r?\\n")`: the pieces between line breaks with the trailing
   * empty ones dropped; a text without any "\n" is one line, even when empty.
   */
  function Lines(s: string): (ls: seq<string>)
    ensures forall k :: 0 <= k < |ls| ==> '\n' !in ls[k]
    ensures '\n' !in s ==> ls == [s]
    ensures '\n' in s ==> ls == [] || ls[|ls| - 1] != ""
  {
    if '\n' !in s then [s] else DropTrailingEmpty(Pieces(s))
  }

  /** The pieces joined with "\n" between them. */
  function JoinLines(ls: seq<string>): string
    requires |ls| >= 1
  {
    if |ls| == 1 then ls[0] else ls[0] + "\n" + JoinLines(ls[1..])
  }

  /** Without carriage returns, the first piece is everything before the first "\n". */
  lemma PiecesFirst(s: string)
    requires '\r' !in s && '\n' in s
    ensures Pieces(s) == [s[..FirstNewline(s)]] + Pieces(s[FirstNewline(s) + 1..])
  {
    var i := FirstNewline(s);
    if i > 0 {
      assert s[i - 1] in s;
    }
  }

  /** Without carriage returns, the pieces joined by "\n" give back the text. */
  lemma {:induction false} PiecesJoin(s: string)
    requires '\r' !in s
    ensures JoinLines(Pieces(s)) == s
    decreases |s|
  {
    if '\n' in s {
      var i := FirstNewline(s);
      var rest := s[i + 1..];
      assert '\r' !in rest by {
        forall k | 0 <= k < |rest| ensures rest[k] != '\r' {
          assert rest[k] == s[i + 1 + k];
        }
      }
      PiecesFirst(s);
      PiecesJoin(rest);
      calc {
        JoinLines(Pieces(s));
        JoinLines([s[..i]] + Pieces(rest));
        s[..i] + "\n" + JoinLines(Pieces(rest));
        s[..i] + "\n" + rest;
        { assert s == s[..i] + [s[i]] + rest; }
        s;
      }
    }
  }

  // ---- pages ----

  /** Lines per page. */
  const PageLines: nat := 40

  /**
   * The page loop AS WRITTEN: every 40th line ends the text of the page's
   * content stream and closes it, then opens (and immediately closes) a
   * stream on a new page, but the loop keeps writing to the closed stream.
   * The next line, or the final endText, therefore fails: a text of 40 lines
   * or more is never rendered. `ok` is false where the source throws.
   */
  method LayOutAsWritten(lines: seq<string>) returns (ok: bool, page: seq<string>)
    ensures ok <==> |lines| < PageLines
    ensures ok ==> page == lines
  {
    var inText := true;
    var lineCount := 0;
    page := [];
    while lineCount < |lines|
      invariant 0 <= lineCount <= |lines|
      invariant inText <==> lineCount < PageLines
      invariant lineCount <= PageLines
      invariant inText ==> page == lines[..lineCount]
    {
      if !inText {
        return false, page;
      }
      page := page + [lines[lineCount]];
      lineCount := lineCount + 1;
      if lineCount % PageLines == 0 {
        inText := false;
      }
    }
    if !inText {
      return false, page;
    }
    assert lines[..lineCount] == lines;
    return true, page;
  }

  /**
   * The page loop as intended: after every 40th line a new page is started
   * and the following lines go to it. Each page but the last holds 40 lines,
   * the last holds the remainder (it is empty when the count is a multiple of
   * 40), and reading the pages in order gives the lines back.
   */
  method LayOut(lines: seq<string>) returns (pages: seq<seq<string>>)
    ensures |pages| == |lines| / PageLines + 1
    ensures Concat(pages) == lines
    ensures forall k :: 0 <= k < |pages| - 1 ==> |pages[k]| == PageLines
    ensures |pages[|pages| - 1]| == |lines| % PageLines
  {
    var done: seq<seq<string>> := [];
    var page: seq<string> := [];
    var lineCount := 0;
    while lineCount < |lines|
      invariant 0 <= lineCount <= |lines|
      invariant lineCount == |done| * PageLines + |page| && |page| < PageLines
      invariant forall k :: 0 <= k < |done| ==> |done[k]| == PageLines
      invariant Concat(done) + page == lines[..lineCount]
    {
      page := page + [lines[lineCount]];
      lineCount := lineCount + 1;
      if |page| == PageLines {
        DivUnique(lineCount, PageLines, |done| + 1, 0);
      } else {
        DivUnique(lineCount, PageLines, |done|, |page|);
      }
      if lineCount % PageLines == 0 {
        ConcatAppend(done, [page]);
        assert Concat([page]) == page + Concat([]);
        done := done + [page];
        page := [];
      }
    }
    pages := done + [page];
    ConcatAppend(done, [page]);
    assert Concat([page]) == page + Concat([]);
    assert lines[..lineCount] == lines;
    DivUnique(|lines|, PageLines, |done|, |page|);
  }

  /**
   * The smallest text the page loop as written cannot lay out: forty lines
   * fail there, while the intended loop gives a full page and an empty one.
   */
  method FortyLines() returns (ok: bool, pages: seq<seq<string>>)
    ensures !ok
    ensures |pages| == 2 && |pages[0]| == PageLines && pages[1] == []
  {
    var lines := seq(PageLines, _ => "line");
    var page;
    ok, page := LayOutAsWritten(lines);
    pages := LayOut(lines);
  }

  /** The file the translation produces, as handed to `FileUtil.createFile`. */
  datatype NewPdf = NewPdf(name: string, language: string, userId: string, documentId: string, pages: seq<seq<string>>)

  /**
   * The translation of a file's text into `to`, from the language of the
   * document the file is attached to, segment by segment.
   */
  function TranslatedText(documents: map<string, Document>, docId: string, to: string, text: string,
                          provider: Translation.Provider, env: Translation.CallEnv)
    : (t: Result<string, Translation.TranslationError>)
    requires docId in documents
    ensures
      var segs := Chunks(text, Translation.MaxSegmentLength);
      var job := Translation.Job(MapLangCode(documents[docId].language), MapLangCode(Some(to)), provider, env);
      var rs := Translation.Results(segs, Translation.Answerer(job), 0);
      && (forall j :: 0 <= j < |segs| ==> rs[j] == Translation.TranslateSingle(segs[j], job, j))
      && (t.Success? <==> forall j :: 0 <= j < |segs| ==> Translation.TranslateSingle(segs[j], job, j).Success?)
      && (t.Success? ==> t.value == Concat(Translation.Values(rs)))
  {
    var segs := Chunks(text, Translation.MaxSegmentLength);
    var job := Translation.Job(MapLangCode(documents[docId].language), MapLangCode(Some(to)), provider, env);
    var rs := Translation.Results(segs, Translation.Answerer(job), 0);
    Translation.ResultsOfJob(segs, job);
    Translation.CombineSucceeds(rs);
    if forall j :: 0 <= j < |rs| ==> rs[j].Success? then
      Translation.CombineConcat(rs);
      Translation.TranslateSegments(segs, job, 0)
    else
      Translation.TranslateSegments(segs, job, 0)
  }

  /**
   * `translate` (file endpoint): authentication, the target language, the
   * file's visibility, rejection of an orphan file and of an unreadable
   * document, then decryption, extraction, translation and layout, any of
   * which failing gives TranslationError. The layout is the page loop as
   * written, so a translation of 40 lines or more fails. `pdfText` is the
   * extracted text of the decrypted file, None when it cannot be read.
   */
  method TranslateFile(files: Files, documents: map<string, Document>, acl: set<Ace>, storage: Storage,
                       p: Principal, fileId: string, contentType: Option<string>, body: Option<string>,
                       jsonTo: Option<string>, urlDecode: string -> Option<string>, pdfText: Option<string>,
                       provider: Translation.Provider, env: Translation.CallEnv)
    returns (r: Result<NewPdf, Error>)
    ensures p.id.None? ==> r == Failure(Forbidden)
    ensures p.id.Some? && TargetLanguage(contentType, body, jsonTo, urlDecode).Failure? ==>
      r == Failure(TargetLanguage(contentType, body, jsonTo, urlDecode).error)
    ensures p.id.Some? && TargetLanguage(contentType, body, jsonTo, urlDecode) == Success(None) ==>
      r == Failure(ValidationError)
    ensures (p.id.Some? && TargetLanguage(contentType, body, jsonTo, urlDecode).Success?
             && TargetLanguage(contentType, body, jsonTo, urlDecode).value.Some?) ==>
      && (FindFile(files, p, acl, fileId, None).Failure? ==> r == Failure(FindFile(files, p, acl, fileId, None).error))
      && (fileId in files && files[fileId].documentId.None? ==>
            r == Failure(if p.id == Some(files[fileId].userId) then NotFound else Forbidden))
      && (FindFile(files, p, acl, fileId, None).Success? && files[fileId].documentId.Some?
          && GetDocument(documents, acl, files[fileId].documentId.value, Read, TargetIds(p, None)).None? ==>
            r == Failure(NotFound))
      && (FindFile(files, p, acl, fileId, None).Success? && files[fileId].documentId.Some?
          && GetDocument(documents, acl, files[fileId].documentId.value, Read, TargetIds(p, None)).Some?
          && r.Failure? ==>
            r.error == TranslationError)
    ensures r.Success? <==>
      && p.id.Some?
      && TargetLanguage(contentType, body, jsonTo, urlDecode).Success?
      && TargetLanguage(contentType, body, jsonTo, urlDecode).value.Some?
      && FindFile(files, p, acl, fileId, None).Success?
      && files[fileId].documentId.Some?
      && GetDocument(documents, acl, files[fileId].documentId.value, Read, TargetIds(p, None)).Some?
      && CanDecrypt(storage, fileId, files[fileId].userId)
      && pdfText.Some? && pdfText.value != []
      && var t := TranslatedText(documents, files[fileId].documentId.value,
                                 TargetLanguage(contentType, body, jsonTo, urlDecode).value.value, pdfText.value, provider, env);
      && t.Success?
      && |Lines(t.value)| < PageLines
    ensures r.Success? ==>
      && var to := TargetLanguage(contentType, body, jsonTo, urlDecode).value.value;
      && var docId := files[fileId].documentId.value;
      && r.value.name == OutputName(files[fileId].name, to)
      && r.value.language == to
      && r.value.userId == p.id.value
      && r.value.documentId == docId
      && r.value.pages == [Lines(TranslatedText(documents, docId, to, pdfText.value, provider, env).value)]
  {
    if p.id.None? {
      return Failure(Forbidden);
    }
    var target := TargetLanguage(contentType, body, jsonTo, urlDecode);
    if target.Failure? {
      return Failure(target.error);
    }
    if target.value.None? {
      return Failure(ValidationError);
    }
    var to := target.value.value;
    var found := FindFile(files, p, acl, fileId, None);
    if found.Failure? {
      return Failure(found.error);
    }
    var file := found.value;
    if file.documentId.None? {
      return Failure(NotFound);
    }
    var documentDto := GetDocument(documents, acl, file.documentId.value, Read, TargetIds(p, None));
    if documentDto.None? {
      return Failure(NotFound);
    }
    var fromLang := MapLangCode(documentDto.value.language);
    var toLang := MapLangCode(Some(to));
    if !CanDecrypt(storage, fileId, file.userId) || pdfText.None? {
      return Failure(TranslationError);
    }
    var job := Translation.Job(fromLang, toLang, provider, env);
    var translated, _ := Translation.Translate(pdfText, job);
    if translated.Failure? {
      return Failure(TranslationError);
    }
    var ok, page := LayOutAsWritten(Lines(translated.value));
    if !ok {
      return Failure(TranslationError);
    }
    return Success(NewPdf(OutputName(file.name, to), to, p.id.value, file.documentId.value, [page]));
  }
}
