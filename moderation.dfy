/**
 * `ContentModerator` (generate.py:120-209): one text is judged by the remote
 * text-moderation service, in 600-character chunks, failing closed on any error.
 *
 * The moderator's fields are set once in `__init__` and never change, so it is a
 * value here. The network, the clock, the nonce generator, `json.dumps` and the
 * HMAC-SHA1/base64 signature are parameters of the functions below.
 */
module Moderation {
  import opened Wrappers
  import opened Json
  import opened Seqs
  import opened Chunking
  import opened Encoding
  import opened Signing

  /** The credentials read with `os.getenv`; either may be missing. */
  datatype Moderator = Moderator(accessKeyId: Option<string>, accessKeySecret: Option<string>)

  /** The per-call values the source draws from the clock, `uuid4` and `json.dumps({"content": ...})`. */
  datatype Call = Call(timestamp: string, nonce: string, serviceParameters: string)

  /**
   * What `requests.post` produced: a `RequestException`, or a response with its
   * status code and its body as decoded by `response.json()` (`None` when the
   * body is not JSON and decoding raises).
   */
  datatype HttpOutcome = RequestFailed | Response(status: int, body: Option<Json>)

  /** Why a single check fails closed. */
  datatype CheckError =
    | NetworkError           // requests.RequestException (generate.py:188-190)
    | BadStatus(code: int)   // status != 200 (generate.py:176-178)
    | NotJson                // response.json() raised (generate.py:191-193)
    | NoData                 // "Data" not in the result (generate.py:181-183)
    | Malformed              // any other exception while reading RiskLevel (generate.py:191-193)

  /** `str.lower()` on ASCII letters. */
  function Lower(s: string): (r: string)
    ensures |r| == |s|
  {
    if s == [] then []
    else [if 'A' <= s[0] <= 'Z' then (s[0] as int + 32) as char else s[0]] + Lower(s[1..])
  }

  /** The lower-cased risk level of a response, or why it cannot be read (generate.py:176-186). */
  function RiskLevel(o: HttpOutcome): (r: Result<string, CheckError>)
    ensures o.RequestFailed? ==> r == Err(NetworkError)
    ensures o.Response? && o.status != 200 ==> r == Err(BadStatus(o.status))
    ensures r.Ok? ==> o.Response? && o.status == 200 && o.body.Some? && o.body.value.Object?
                      && Lookup(o.body.value.members, "Data").Some?
  {
    match o
    case RequestFailed => Err(NetworkError)
    case Response(status, body) =>
      if status != 200 then Err(BadStatus(status))
      else match body
        case None => Err(NotJson)
        case Some(Object(members)) =>
          (match Lookup(members, "Data")
           case None => Err(NoData)
           case Some(data) =>
             (match Get(data, "RiskLevel", Str(""))
              case Some(Str(level)) => Ok(Lower(level))
              case _ => Err(Malformed)))
        // A list, string or scalar body: `"Data" in result` is false, or it or
        // `result["Data"]` raises TypeError; either way the check fails.
        case Some(_) => Err(NoData)
  }

  /** The boolean `_check_single_text` returns for one response: every error collapses to `false`. */
  function SingleVerdict(o: HttpOutcome): (r: bool)
  {
    match RiskLevel(o)
    case Ok(level) => level != "high"
    case Err(_) => false
  }

  /**
   * The single check fails closed: a pass needs a 200 response whose JSON body
   * holds `Data`; a network error or any other status fails; and for a 200
   * response whose `Data` is an object, the verdict is `false` exactly when the
   * lower-cased `RiskLevel` (absent meaning "") is "high"; `Data` that is not an
   * object fails (`.get` raises `AttributeError`, which is caught).
   */
  lemma SingleVerdictSpec(o: HttpOutcome)
    ensures SingleVerdict(o) ==> o.Response? && o.status == 200 && o.body.Some? && o.body.value.Object?
                                 && Lookup(o.body.value.members, "Data").Some?
    ensures o.RequestFailed? || o.status != 200 || o.body.None? ==> !SingleVerdict(o)
    ensures o.Response? && o.status == 200 && o.body.Some? && o.body.value.Object? ==>
      match Lookup(o.body.value.members, "Data")
      case None => !SingleVerdict(o)
      case Some(data) =>
        data.Object? ==>
          match Lookup(data.members, "RiskLevel")
          case None => SingleVerdict(o)
          case Some(Str(level)) => SingleVerdict(o) <==> Lower(level) != "high"
          case Some(_) => !SingleVerdict(o)
    ensures o.Response? && o.status == 200 && o.body.Some? && o.body.value.Object? ==>
      match Lookup(o.body.value.members, "Data")
      case None => true
      case Some(data) => !data.Object? ==> !SingleVerdict(o)
  {
  }

  /** Any capitalisation of "HIGH" is rejected, and no other four letters are. */
  lemma {:induction false} LowerIsHigh(level: string)
    ensures Lower(level) == "high" <==>
      |level| == 4 && level[0] in "hH" && level[1] in "iI" && level[2] in "gG" && level[3] in "hH"
  {
    if |level| == 4 {
      var l := Lower(level);
      assert l[0] == (if 'A' <= level[0] <= 'Z' then (level[0] as int + 32) as char else level[0]);
      assert l[1..] == Lower(level[1..]);
      assert l[1] == (if 'A' <= level[1] <= 'Z' then (level[1] as int + 32) as char else level[1]);
      assert l[2..] == Lower(level[2..]);
      assert l[2] == (if 'A' <= level[2] <= 'Z' then (level[2] as int + 32) as char else level[2]);
      assert l[3..] == Lower(level[3..]);
      assert l[3] == (if 'A' <= level[3] <= 'Z' then (level[3] as int + 32) as char else level[3]);
    }
  }

  /** The `AccessKeyId` value as signed: `str(None)` is "None" when the variable is unset. */
  function KeyIdText(m: Moderator): (r: string)
  {
    match m.accessKeyId
    case Some(id) => id
    case None => "None"
  }

  /** `params_a` for one call (generate.py:139-150). */
  function CallParams(m: Moderator, call: Call): (r: seq<Param>)
  {
    RequestParams(KeyIdText(m), call.timestamp, call.nonce, call.serviceParameters)
  }

  /** Drops `key`; `requests` leaves parameters whose value is `None` out of the request. */
  function Without(ps: seq<Param>, key: string): (r: seq<Param>)
    ensures forall p :: p in r <==> p in ps && p.0 != key
  {
    if ps == [] then []
    else (if ps[0].0 == key then [] else [ps[0]]) + Without(ps[1..], key)
  }

  /**
   * The parameters `requests.post` sends for one call, signed with `secret`:
   * `params_a` plus `Signature`, which is `sign(secret + "&", string_to_sign)`;
   * `AccessKeyId` is left out when its value is `None`.
   */
  function Posted(m: Moderator, call: Call, sign: (string, string) -> string): (r: seq<Param>)
    requires m.accessKeySecret.Some?
  {
    var ps := CallParams(m, call);
    var sent := SignedParams(ps, sign(m.accessKeySecret.value + "&", StringToSign(ps)));
    if m.accessKeyId.None? then Without(sent, "AccessKeyId") else sent
  }

  /**
   * The outcome of `_check_single_text(content)` (generate.py:136-193): the
   * verdict on the response to the posted request. A missing secret raises
   * `TypeError` at `None + "&"`, which is caught.
   */
  function CheckSingleText(m: Moderator, call: Call, sign: (string, string) -> string,
                           respond: seq<Param> -> HttpOutcome): (r: bool)
  {
    match m.accessKeySecret
    case None => false
    case Some(_) => SingleVerdict(respond(Posted(m, call, sign)))
  }

  /** The texts `check_text(content)` hands to `_check_single_text`, in order (generate.py:198-205). */
  function Queries(content: string): (r: seq<string>)
  {
    if content == [] then []
    else if |content| <= ChunkSize then [content]
    else Chunks(content)
  }

  /** Python's `all(...)` over the verdicts of `texts`. */
  predicate AllPass(texts: seq<string>, verdict: string -> bool)
  {
    forall k :: 0 <= k < |texts| ==> verdict(texts[k])
  }

  /**
   * `check_text` (generate.py:195-206): empty text passes without a check, text of
   * at most 600 characters gets one check, longer text passes when every chunk does.
   * `verdict` is what `_check_single_text` returns for a text.
   */
  predicate CheckText(content: string, verdict: string -> bool)
    ensures content == [] ==> CheckText(content, verdict)
    ensures CheckText(content, verdict) <==> AllPass(Chunks(content), verdict)
  {
    if content == [] then true
    else if |content| <= ChunkSize then
      assert Chunks(content) == [content] && Chunks(content)[0] == content;
      verdict(content)
    else AllPass(Chunks(content), verdict)
  }

  /**
   * The `<= 600` shortcut agrees with splitting: for every text, the checks made
   * are exactly its chunks (none for empty text, one for at most 600 characters,
   * ceil(len / 600) otherwise), every one of them is made, and the text passes
   * exactly when every chunk passes.
   */
  lemma CheckTextSpec(content: string, verdict: string -> bool)
    ensures Queries(content) == Chunks(content)
    ensures |Queries(content)| == (|content| + ChunkSize - 1) / ChunkSize
    ensures CheckText(content, verdict) <==> AllPass(Queries(content), verdict)
    ensures Concat(Queries(content)) == content
  {
    ChunkSizes(content);
    ChunksConcat(content);
  }

  /** One chunk failing fails the whole text, whatever the other chunks say. */
  lemma FailingChunkFailsText(content: string, verdict: string -> bool, k: nat)
    requires k < |Chunks(content)| && !verdict(Chunks(content)[k])
    ensures !CheckText(content, verdict)
  {
    CheckTextSpec(content, verdict);
  }

  /** The per-chunk verdict of a moderator in a given environment: each chunk is its own signed call. */
  function ChunkVerdict(m: Moderator, calls: string -> Call, sign: (string, string) -> string,
                        respond: seq<Param> -> HttpOutcome): (r: string -> bool)
  {
    (chunk: string) => CheckSingleText(m, calls(chunk), sign, respond)
  }

  /** Without the secret key every non-empty text is rejected, and the empty text still passes. */
  lemma MissingSecretFailsClosed(m: Moderator, calls: string -> Call, sign: (string, string) -> string,
                                 respond: seq<Param> -> HttpOutcome, content: string)
    requires m.accessKeySecret.None?
    ensures CheckText(content, ChunkVerdict(m, calls, sign, respond)) <==> content == []
  {
    var v := ChunkVerdict(m, calls, sign, respond);
    CheckTextSpec(content, v);
    if content != [] {
      ChunkSizes(content);
      assert !v(Queries(content)[0]);
    }
  }

  /**
   * The request posted for a call carries `Signature`, the signer applied to
   * `secret&` and `POST&%2F&` followed by the encoded canonical query of the
   * request parameters; besides it, it carries exactly those parameters, less
   * `AccessKeyId` when that was unset; and the check's verdict is the verdict on
   * the response to that request.
   */
  lemma PostedSpec(m: Moderator, call: Call, sign: (string, string) -> string,
                   respond: seq<Param> -> HttpOutcome)
    requires m.accessKeySecret.Some?
    ensures var ps := CallParams(m, call);
      ("Signature", sign(m.accessKeySecret.value + "&", "POST&%2F&" + EncodeA(CanonicalQuery(ps))))
        in Posted(m, call, sign)
    ensures forall p ::
      ((p in Posted(m, call, sign) && p.0 != "Signature")
       <==> (p in CallParams(m, call) && !(p.0 == "AccessKeyId" && m.accessKeyId.None?)))
    ensures CheckSingleText(m, call, sign, respond) == SingleVerdict(respond(Posted(m, call, sign)))
  {
    var ps := CallParams(m, call);
    StringToSignSpec(ps);
    RequestParamsDistinct(KeyIdText(m), call.timestamp, call.nonce, call.serviceParameters);
    var sent := SignedParams(ps, sign(m.accessKeySecret.value + "&", StringToSign(ps)));
    assert sent[|sent| - 1] in sent;
    forall p ensures p in sent && p.0 != "Signature" <==> p in ps {
      if p in ps {
        var i :| 0 <= i < |ps| && ps[i] == p;
      }
    }
  }

  /**
   * Each chunk is judged by its own signed call: with a secret, the chunk passes
   * exactly when the response to the request posted for it passes, and that
   * request carries the signature of the chunk's canonical query and otherwise
   * exactly the chunk's call parameters; without a secret, no chunk passes.
   */
  lemma ChunkVerdictSpec(m: Moderator, calls: string -> Call, sign: (string, string) -> string,
                         respond: seq<Param> -> HttpOutcome, chunk: string)
    ensures m.accessKeySecret.None? ==> !ChunkVerdict(m, calls, sign, respond)(chunk)
    ensures m.accessKeySecret.Some? ==>
      var ps := CallParams(m, calls(chunk));
      var q := Posted(m, calls(chunk), sign);
      && ("Signature", sign(m.accessKeySecret.value + "&", "POST&%2F&" + EncodeA(CanonicalQuery(ps)))) in q
      && (forall p :: (p in q && p.0 != "Signature") <==> (p in ps && !(p.0 == "AccessKeyId" && m.accessKeyId.None?)))
      && (ChunkVerdict(m, calls, sign, respond)(chunk) <==> SingleVerdict(respond(q)))
  {
    assert ChunkVerdict(m, calls, sign, respond)(chunk) == CheckSingleText(m, calls(chunk), sign, respond);
    if m.accessKeySecret.Some? {
      PostedSpec(m, calls(chunk), sign, respond);
    }
  }
}
