/**
 * TranslationService: the client of the Youdao text-translation API
 * (signature version v3). The text is cut into segments of at most 4000
 * characters, every segment is sent as one signed form-encoded request, and
 * the translated segments are concatenated in order.
 *
 * The HTTP exchange, SHA-256 and the per-call nonce and clock are not
 * computed here: they are the fields of `Provider` and `CallEnv`.
 */
module Translation {
  import opened Wrappers
  import opened Decimal
  import opened Chunking

  /** Longest segment sent in one request. */
  const MaxSegmentLength: nat := 4000

  /** Texts up to this length are signed verbatim. */
  const TruncateLimit: nat := 20

  /** Characters kept from each end of a longer text. */
  const TruncateKeep: nat := 10

  /** One form field of the request. */
  type Param = (string, string)

  /** What one POST to the provider yields, as far as the code looks at it. */
  datatype ApiResponse =
    | TransportFailure                                                  // the HTTP client threw
    | NoEntity                                                          // a response without a body
    | Unreadable                                                        // a body the JSON reader rejects
    | Json(errorCode: Option<string>, translation: Option<seq<string>>) // the fields read from the JSON object

  /** Why a translation failed; every one of them is an exception in the source. */
  datatype TranslationError =
    | ContentEmpty              // "Content is empty"
    | ProviderError(code: string) // "Translation failed, errorCode=..."
    | NoTranslation             // "empty response or no translation field"
    | Transport                 // I/O failure of the HTTP call
    | Malformed                 // the response body is not readable JSON

  /** The provider's account and its two opaque operations: hashing and posting a form. */
  datatype Provider = Provider(
    appKey: string,
    appSecret: string,
    sha256Hex: string -> string,
    post: seq<Param> -> ApiResponse)

  /** The random nonce (a UUID) and the clock reading (milliseconds) of the k-th request. */
  datatype CallEnv = CallEnv(salt: nat -> string, millis: nat -> nat)

  /** A call to the provider: the segment it translates and its position among the calls. */
  datatype Call = Call(segment: string, index: nat)

  /** What every call of one translation shares: the language pair, the provider and the environment. */
  datatype Job = Job(from: string, to: string, p: Provider, env: CallEnv)

  /**
   * The digest input the v3 signature uses in place of the text: the text
   * itself when it has at most 20 characters, otherwise its first 10
   * characters, its length in decimal and its last 10 characters.
   */
  function Truncate(q: string): (r: string)
    ensures |q| <= TruncateLimit ==> r == q
    ensures |q| > TruncateLimit ==> |r| == 2 * TruncateKeep + |DecimalString(|q|)|
  {
    if |q| <= TruncateLimit then q
    else q[..TruncateKeep] + DecimalString(|q|) + q[|q| - TruncateKeep..]
  }

  /**
   * A long text's truncation keeps its first and last ten characters and the
   * middle reads back as the text's length.
   */
  lemma TruncateDecodes(q: string)
    requires |q| > TruncateLimit
    ensures var r := Truncate(q);
      && r[..TruncateKeep] == q[..TruncateKeep]
      && r[|r| - TruncateKeep..] == q[|q| - TruncateKeep..]
      && ParseDigits(r[TruncateKeep..|r| - TruncateKeep]) == Some(|q|)
  {
    var r := Truncate(q);
    var d := DecimalString(|q|);
    assert r == q[..TruncateKeep] + d + q[|q| - TruncateKeep..];
    assert r[TruncateKeep..|r| - TruncateKeep] == d;
    ParseDecimalString(|q|);
  }

  function Pow10(k: nat): nat {
    if k == 0 then 1 else 10 * Pow10(k - 1)
  }

  lemma {:induction false} DecimalLengthBound(n: nat, k: nat)
    requires k >= 1 && n < Pow10(k)
    ensures |DecimalString(n)| <= k
  {
    if n >= 10 {
      assert n / 10 < Pow10(k - 1);
      DecimalLengthBound(n / 10, k - 1);
    }
  }

  /** For a segment the translator sends, the digest input never exceeds 24 characters. */
  lemma TruncateOfSegmentBounded(q: string)
    requires |q| <= MaxSegmentLength
    ensures |Truncate(q)| <= 24
  {
    if |q| > TruncateLimit {
      assert Pow10(4) == 10000;
      DecimalLengthBound(|q|, 4);
    }
  }

  /** The `curtime` field: the clock reading in whole seconds, in decimal. */
  function CurTime(millis: nat): (t: string)
    ensures ParseDigits(t) == Some(millis / 1000)
  {
    ParseDecimalString(millis / 1000);
    DecimalString(millis / 1000)
  }

  /** The text the signature hashes: appKey, digest input, salt, curtime, appSecret, in that order. */
  function SignInput(p: Provider, q: string, salt: string, curtime: string): string {
    p.appKey + Truncate(q) + salt + curtime + p.appSecret
  }

  /** The form fields of one request, in the order the source adds them. */
  function RequestParams(q: string, from: string, to: string, p: Provider, salt: string, curtime: string): seq<Param> {
    var sign := p.sha256Hex(SignInput(p, q, salt, curtime));
    [("q", q), ("from", from), ("to", to), ("appKey", p.appKey),
     ("salt", salt), ("sign", sign), ("signType", "v3"), ("curtime", curtime)]
  }

  /** The value of the first field with the given name. */
  function Lookup(params: seq<Param>, name: string): (v: Option<string>)
    ensures v.Some? <==> exists i :: 0 <= i < |params| && params[i].0 == name
  {
    if params == [] then None
    else if params[0].0 == name then Some(params[0].1)
    else Lookup(params[1..], name)
  }

  function Names(params: seq<Param>): seq<string> {
    seq(|params|, i requires 0 <= i < |params| => params[i].0)
  }

  /** In a list whose earlier names differ, looking a field up by its name finds it. */
  lemma {:induction false} LookupFinds(params: seq<Param>, i: nat)
    requires i < |params|
    requires forall j :: 0 <= j < i ==> params[j].0 != params[i].0
    ensures Lookup(params, params[i].0) == Some(params[i].1)
  {
    if i > 0 {
      LookupFinds(params[1..], i - 1);
    }
  }

  /**
   * A request carries exactly the eight fields the v3 API defines, each once,
   * with the text verbatim, the signature over the truncated text and
   * signType "v3".
   */
  lemma RequestFields(q: string, from: string, to: string, p: Provider, salt: string, curtime: string)
    ensures var ps := RequestParams(q, from, to, p, salt, curtime);
      && Names(ps) == ["q", "from", "to", "appKey", "salt", "sign", "signType", "curtime"]
      && Lookup(ps, "q") == Some(q)
      && Lookup(ps, "from") == Some(from)
      && Lookup(ps, "to") == Some(to)
      && Lookup(ps, "appKey") == Some(p.appKey)
      && Lookup(ps, "salt") == Some(salt)
      && Lookup(ps, "sign") == Some(p.sha256Hex(p.appKey + Truncate(q) + salt + curtime + p.appSecret))
      && Lookup(ps, "signType") == Some("v3")
      && Lookup(ps, "curtime") == Some(curtime)
  {
    var ps := RequestParams(q, from, to, p, salt, curtime);
    assert Names(ps) == ["q", "from", "to", "appKey", "salt", "sign", "signType", "curtime"];
    FieldFound(ps, 0);
    FieldFound(ps, 1);
    FieldFound(ps, 2);
    FieldFound(ps, 3);
    FieldFound(ps, 4);
    FieldFound(ps, 5);
    FieldFound(ps, 6);
    FieldFound(ps, 7);
  }

  /** The eight names of the v3 form are pairwise different, so each field is found by its name. */
  lemma FieldFound(ps: seq<Param>, i: nat)
    requires Names(ps) == ["q", "from", "to", "appKey", "salt", "sign", "signType", "curtime"]
    requires i < 8
    ensures Lookup(ps, ps[i].0) == Some(ps[i].1)
  {
    var names := Names(ps);
    assert |"q"| == 1 && |"to"| == 2 && |"from"| == 4 && |"salt"| == 4 && |"sign"| == 4;
    assert |"appKey"| == 6 && |"curtime"| == 7 && |"signType"| == 8;
    assert "from"[0] != "salt"[0] && "from"[0] != "sign"[0] && "salt"[1] != "sign"[1];
    assert |ps| == |names|;
    assert forall j :: 0 <= j < i ==> names[j] != names[i];
    assert forall j :: 0 <= j < |ps| ==> ps[j].0 == names[j];
    LookupFinds(ps, i);
  }

  /**
   * Reading the provider's answer: a present errorCode other than "0" is a
   * failure; otherwise the first element of a non-empty `translation` array
   * is the result; anything else is a failure.
   */
  function HandleResponse(resp: ApiResponse): (r: Result<string, TranslationError>)
    ensures r.Success? <==>
      && resp.Json?
      && (resp.errorCode.None? || resp.errorCode.value == "0")
      && resp.translation.Some? && |resp.translation.value| > 0
    ensures r.Success? ==> r.value == resp.translation.value[0]
    ensures resp.Json? && resp.errorCode.Some? && resp.errorCode.value != "0" ==>
      r == Failure(ProviderError(resp.errorCode.value))
  {
    match resp
    case TransportFailure => Failure(Transport)
    case NoEntity => Failure(NoTranslation)
    case Unreadable => Failure(Malformed)
    case Json(errorCode, translation) =>
      if errorCode.Some? && errorCode.value != "0" then Failure(ProviderError(errorCode.value))
      else if translation.Some? && |translation.value| > 0 then Success(translation.value[0])
      else Failure(NoTranslation)
  }

  /** The request the k-th call sends for segment q. */
  function RequestFor(q: string, job: Job, k: nat): seq<Param> {
    RequestParams(q, job.from, job.to, job.p, job.env.salt(k), CurTime(job.env.millis(k)))
  }

  /** One call: an empty segment comes back unchanged without a request; otherwise the answer to its request. */
  function TranslateSingle(q: string, job: Job, k: nat): (r: Result<string, TranslationError>)
    ensures q == [] ==> r == Success(q)
    ensures q != [] ==> r == HandleResponse(job.p.post(RequestFor(q, job, k)))
  {
    if q == [] then Success(q)
    else HandleResponse(job.p.post(RequestFor(q, job, k)))
  }

  /** The answers to the segments, the j-th segment being sent as call k + j and answered by `answer`. */
  function Results(segs: seq<string>, answer: (string, nat) -> Result<string, TranslationError>, k: nat)
    : (rs: seq<Result<string, TranslationError>>)
    ensures |rs| == |segs|
    decreases |segs|
  {
    if segs == [] then [] else [answer(segs[0], k)] + Results(segs[1..], answer, k + 1)
  }

  lemma {:induction false} ResultsAt(segs: seq<string>, answer: (string, nat) -> Result<string, TranslationError>, k: nat, j: nat)
    requires j < |segs|
    ensures Results(segs, answer, k)[j] == answer(segs[j], k + j)
    decreases j
  {
    if j > 0 {
      ResultsAt(segs[1..], answer, k + 1, j - 1);
    }
  }

  /** The answer of the i-th call of a job to segment q. */
  function Answerer(job: Job): (string, nat) -> Result<string, TranslationError> {
    (q: string, i: nat) => TranslateSingle(q, job, i)
  }

  /** The answer function performs the translation call. */
  lemma AnswererCalls(job: Job, q: string, k: nat)
    ensures Answerer(job)(q, k) == TranslateSingle(q, job, k)
  {
  }

  /** The first failure wins; otherwise the outputs are joined in order. */
  function Combine(rs: seq<Result<string, TranslationError>>): Result<string, TranslationError> {
    if rs == [] then Success("")
    else match rs[0]
      case Failure(e) => Failure(e)
      case Success(head) =>
        match Combine(rs[1..])
        case Failure(e) => Failure(e)
        case Success(tail) => Success(head + tail)
  }

  /** The outputs of answers that all succeeded. */
  function Values(rs: seq<Result<string, TranslationError>>): seq<string>
    requires forall j :: 0 <= j < |rs| ==> rs[j].Success?
  {
    if rs == [] then [] else [rs[0].value] + Values(rs[1..])
  }

  /** Translating the segments from the k-th call on. */
  function TranslateSegments(segs: seq<string>, job: Job, k: nat): Result<string, TranslationError> {
    Combine(Results(segs, Answerer(job), k))
  }

  /** The j-th result of a job's segment loop is the j-th translation call. */
  lemma ResultsOfJob(segs: seq<string>, job: Job)
    ensures forall j :: 0 <= j < |segs| ==> Results(segs, Answerer(job), 0)[j] == TranslateSingle(segs[j], job, j)
  {
    forall j | 0 <= j < |segs| ensures Results(segs, Answerer(job), 0)[j] == TranslateSingle(segs[j], job, j) {
      ResultOfJobAt(segs, job, j);
    }
  }

  lemma ResultOfJobAt(segs: seq<string>, job: Job, j: nat)
    requires j < |segs|
    ensures Results(segs, Answerer(job), 0)[j] == TranslateSingle(segs[j], job, j)
  {
    var answer := Answerer(job);
    ResultsAt(segs, answer, 0, j);
    var q := segs[j];
    assert Results(segs, answer, 0)[j] == answer(q, j);
    assert answer(q, j) == TranslateSingle(q, job, j) by {
      AnswererCalls(job, q, j);
    }
  }

  /** The answers combine to a success iff every one of them is a success. */
  lemma {:induction false} CombineSucceeds(rs: seq<Result<string, TranslationError>>)
    ensures Combine(rs).Success? <==> forall j :: 0 <= j < |rs| ==> rs[j].Success?
  {
    if rs != [] {
      CombineSucceeds(rs[1..]);
      assert forall j :: 1 <= j < |rs| ==> rs[j] == rs[1..][j - 1];
    }
  }

  /** When every answer succeeds, the result is their outputs concatenated in order. */
  lemma {:induction false} CombineConcat(rs: seq<Result<string, TranslationError>>)
    requires forall j :: 0 <= j < |rs| ==> rs[j].Success?
    ensures Combine(rs) == Success(Concat(Values(rs)))
  {
    if rs != [] {
      CombineConcat(rs[1..]);
    }
  }

  /** A failed combination carries the error of the first failing answer, all earlier ones having succeeded. */
  lemma {:induction false} CombineFirstFailure(rs: seq<Result<string, TranslationError>>)
    requires Combine(rs).Failure?
    ensures exists j ::
              && 0 <= j < |rs|
              && rs[j] == Failure(Combine(rs).error)
              && (forall i :: 0 <= i < j ==> rs[i].Success?)
  {
    if rs[0].Success? {
      CombineFirstFailure(rs[1..]);
      var j :| 0 <= j < |rs| - 1 && rs[1..][j] == Failure(Combine(rs[1..]).error) &&
        forall i :: 0 <= i < j ==> rs[1..][i].Success?;
      assert rs[j + 1] == Failure(Combine(rs).error);
      assert forall i :: 0 <= i < j + 1 ==> rs[i].Success? by {
        forall i | 0 <= i < j + 1 ensures rs[i].Success? {
          if i > 0 { assert rs[i] == rs[1..][i - 1]; }
        }
      }
    } else {
      assert rs[0] == Failure(Combine(rs).error);
    }
  }

  /** Prefixes the translated text so far to a remaining result. */
  function Prepend(done: string, rest: Result<string, TranslationError>): Result<string, TranslationError> {
    match rest
    case Failure(e) => Failure(e)
    case Success(s) => Success(done + s)
  }

  /** Moving one successful answer from the pending results to the text done so far. */
  lemma PrependStep(done: string, v: string, rest: seq<Result<string, TranslationError>>)
    ensures Prepend(done, Combine([Success(v)] + rest)) == Prepend(done + v, Combine(rest))
  {
    assert ([Success(v)] + rest)[1..] == rest;
    var c := Combine(rest);
    if c.Success? {
      assert done + (v + c.value) == (done + v) + c.value;
    }
  }

  lemma FailureStep(done: string, e: TranslationError, rest: seq<Result<string, TranslationError>>)
    ensures Prepend(done, Combine([Failure(e)] + rest)) == Failure(e)
  {
  }

  /** One turn of the loop: the segment at `start` is the next chunk, and the rest follow it. */
  lemma TranslateStep(text: string, start: nat, segs: seq<string>, k: nat, answer: (string, nat) -> Result<string, TranslationError>)
    requires start < |text| && k <= |segs| && segs[k..] == ChunksFrom(text, MaxSegmentLength, start)
    ensures var end := Min(start + MaxSegmentLength, |text|);
      && k < |segs| && segs[k] == text[start..end]
      && segs[k + 1..] == ChunksFrom(text, MaxSegmentLength, end)
      && Results(segs[k..], answer, k) == [answer(text[start..end], k)] + Results(segs[k + 1..], answer, k + 1)
  {
    var end := Min(start + MaxSegmentLength, |text|);
    assert segs[k..][0] == segs[k];
    assert segs[k..][1..] == segs[k + 1..];
  }

  /**
   * The segment loop of `translate`, with the answer of each call given as `answer`.
   */
  method TranslateText(text: string, answer: (string, nat) -> Result<string, TranslationError>)
    returns (r: Result<string, TranslationError>, calls: seq<Call>)
    requires text != []
    ensures r == Combine(Results(Chunks(text, MaxSegmentLength), answer, 0))
    ensures var segs := Chunks(text, MaxSegmentLength);
      && 0 < |calls| <= |segs|
      && (forall j :: 0 <= j < |calls| ==> calls[j] == Call(segs[j], j))
      && (r.Success? ==> |calls| == |segs|)
      && (forall j :: 0 <= j < |calls| - 1 ==> answer(segs[j], j).Success?)
      && (r.Success? ==> forall j :: 0 <= j < |calls| ==> answer(segs[j], j).Success?)
      && (r.Failure? ==> answer(segs[|calls| - 1], |calls| - 1) == Failure(r.error))
  {
    var maxLen := MaxSegmentLength;
    var translated := "";
    var start := 0;
    var k := 0;
    calls := [];
    ghost var segs := Chunks(text, maxLen);
    assert segs[0..] == segs;
    assert Prepend("", Combine(Results(segs, answer, 0))) == Combine(Results(segs, answer, 0)) by {
      var x := Combine(Results(segs, answer, 0));
      if x.Success? { assert "" + x.value == x.value; }
    }
    while start < |text|
      invariant 0 <= start <= |text|
      invariant k == |calls| && k <= |segs|
      invariant segs[k..] == ChunksFrom(text, maxLen, start)
      invariant forall j :: 0 <= j < k ==> calls[j] == Call(segs[j], j)
      invariant forall j :: 0 <= j < k ==> answer(segs[j], j).Success?
      invariant Combine(Results(segs, answer, 0)) == Prepend(translated, Combine(Results(segs[k..], answer, k)))
      decreases |text| - start
    {
      var end := Min(start + maxLen, |text|);
      var part := text[start..end];
      TranslateStep(text, start, segs, k, answer);
      calls := calls + [Call(part, k)];
      var partResult := answer(part, k);
      if partResult.Failure? {
        FailureStep(translated, partResult.error, Results(segs[k + 1..], answer, k + 1));
        r := Failure(partResult.error);
        assert calls[|calls| - 1] == Call(segs[|calls| - 1], |calls| - 1);
        return;
      }
      PrependStep(translated, partResult.value, Results(segs[k + 1..], answer, k + 1));
      translated := translated + partResult.value;
      start := end;
      k := k + 1;
    }
    assert segs[k..] == [];
    assert translated + "" == translated;
    r := Success(translated);
  }

  method Translate(content: Option<string>, job: Job)
    returns (r: Result<string, TranslationError>, calls: seq<Call>)
    ensures content.None? || content.value == [] ==> r == Failure(ContentEmpty) && calls == []
    ensures content.Some? && content.value != [] ==>
      r == TranslateSegments(Chunks(content.value, MaxSegmentLength), job, 0)
    ensures content.Some? && content.value != [] ==>
      var segs := Chunks(content.value, MaxSegmentLength);
      && 0 < |calls| <= |segs|
      && (forall j :: 0 <= j < |calls| ==> calls[j] == Call(segs[j], j))
      && (r.Success? ==> |calls| == |segs|)
      && (forall j :: 0 <= j < |calls| - 1 ==> TranslateSingle(segs[j], job, j).Success?)
      && (r.Failure? ==> TranslateSingle(segs[|calls| - 1], job, |calls| - 1) == Failure(r.error))
  {
    if content.None? || content.value == [] {
      return Failure(ContentEmpty), [];
    }
    r, calls := TranslateText(content.value, Answerer(job));
    ghost var segs := Chunks(content.value, MaxSegmentLength);
    forall j | 0 <= j < |calls|
      ensures Answerer(job)(segs[j], j) == TranslateSingle(segs[j], job, j)
    {
      AnswererCalls(job, segs[j], j);
    }
  }
}
