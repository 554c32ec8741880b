/** The request handler of `api/store.js` (`handle`, `sendResponse`,
    `returnShortUrl`, `handleError`): parse, require a URL, validate, hash,
    store, respond, with the first failure turned into the error response. */
module Handler {
  import opened Wrappers
  import opened HttpErrors
  import opened DomainValidator
  import opened HashDeriver

  /** The configuration loaded once at start-up. */
  datatype Config = Config(whitelist: seq<string>, shortDomain: string)

  /** The collaborators outside this model: Node's URL parser, the digests, and
      the store's `putObject(key, redirect location)`, which either succeeds
      (`None`) or rejects with an error. */
  datatype Env = Env(
    parseHost: string -> HostParse,
    digests: Digests,
    put: (string, string) -> Option<Error>)

  /** The event body after `JSON.parse`: unparseable, or an object with the
      `url` property (`None` when absent) and the `hashLength` property. */
  datatype Event = Unparseable | Json(url: Option<string>, hashLength: LengthField)

  /** The JSON response body; `None` fields are left out by `JSON.stringify`. */
  datatype Body = Body(message: string, path: Option<string>, url: Option<string>)

  datatype Response = Response(headers: seq<(string, string)>, statusCode: int, body: Body)

  /** A handled request: the response, and the key/value pair handed to the
      store, if the request got that far. */
  datatype Handled = Handled(response: Response, stored: Option<(string, string)>)

  const CorsHeaders: seq<(string, string)> := [("Access-Control-Allow-Origin", "*")]
  const UnparseableMessage: string := "Event doesn't contain a parseable JSON body"
  const MissingUrlMessage: string := "Event body must contain a `url` to be shortened"
  const OkMessage: string := "OK"

  /** `sendResponse`: the short URL is added exactly when a non-empty path is given. */
  function SendResponse(cfg: Config, statusCode: int, message: string, path: Option<string>): (r: Response)
    ensures r.headers == CorsHeaders && r.statusCode == statusCode
    ensures r.body.message == message && r.body.path == path
    ensures r.body.url.Some? <==> path.Some? && path.value != ""
    ensures r.body.url.Some? ==> r.body.url.value == cfg.shortDomain + "/" + path.value
  {
    var url := if path.Some? && path.value != "" then Some(cfg.shortDomain + "/" + path.value) else None;
    Response(CorsHeaders, statusCode, Body(message, path, url))
  }

  /** `returnShortUrl`: status 200 with the hash as path and the short URL. */
  function ReturnShortUrl(cfg: Config, hash: string): (r: Response)
    ensures r.statusCode == 200 && r.headers == CorsHeaders
    ensures r.body.message == OkMessage && r.body.path == Some(hash)
    ensures hash != "" ==> r.body.url == Some(cfg.shortDomain + "/" + hash)
  {
    SendResponse(cfg, 200, OkMessage, Some(hash))
  }

  /** `handleError`: the error's status (500 by default) and message, with no
      path and no URL. */
  function HandleError(cfg: Config, err: Error): (r: Response)
    ensures r.headers == CorsHeaders
    ensures r.statusCode == StatusOf(err) && r.body.message == MessageOf(err)
    ensures err.statusCode.None? ==> r.statusCode == 500
    ensures r.body.path.None? && r.body.url.None?
  {
    SendResponse(cfg, StatusOf(err), MessageOf(err), None)
  }

  /** A `url` property JavaScript treats as true. */
  predicate HasUrl(event: Event) {
    event.Json? && event.url.Some? && event.url.value != ""
  }

  /** `handle`: every response carries the CORS header, and a short URL is
      returned exactly when the store accepted the pair it was handed. */
  function Handle(cfg: Config, env: Env, event: Event): (h: Handled)
    ensures h.response.headers == CorsHeaders
    ensures h.response.body.url.Some? <==> h.stored.Some? && env.put(h.stored.value.0, h.stored.value.1).None?
    ensures h.stored.Some? ==> HasUrl(event) && h.stored.value.1 == event.url.value
  {
    match event
    case Unparseable =>
      Handled(SendResponse(cfg, 400, UnparseableMessage, None), None)
    case Json(url, hashLength) =>
      if url.None? || url.value == "" then
        Handled(SendResponse(cfg, 400, MissingUrlMessage, None), None)
      else
        var longUrl := url.value;
        match Validate(cfg.whitelist, env.parseHost(longUrl), longUrl)
        case Err(e) => Handled(HandleError(cfg, e), None)
        case Ok(valid) =>
          match CalculateHash(hashLength, env.digests, valid)
          case Err(e) => Handled(HandleError(cfg, e), None)
          case Ok(derived) =>
            var stored := Some((derived.hash, derived.longUrl));
            match env.put(derived.hash, derived.longUrl)
            case Some(e) => Handled(HandleError(cfg, e), stored)
            case None => Handled(ReturnShortUrl(cfg, derived.hash), stored)
  }

  /** The validation outcome `handle` sees for a request with a URL. */
  function Validated(cfg: Config, env: Env, event: Event): Result<string, Error>
    requires HasUrl(event)
  {
    Validate(cfg.whitelist, env.parseHost(event.url.value), event.url.value)
  }

  /** An unparseable body gets 400 and reaches neither validation nor the store. */
  lemma UnparseableIsBadRequest(cfg: Config, env: Env)
    ensures Handle(cfg, env, Unparseable).response.statusCode == 400
    ensures Handle(cfg, env, Unparseable).response.body == Body(UnparseableMessage, None, None)
    ensures Handle(cfg, env, Unparseable).stored.None?
  {
  }

  /** A missing or empty `url` gets 400 and reaches neither validation nor the store. */
  lemma MissingUrlIsBadRequest(cfg: Config, env: Env, event: Event)
    requires event.Json? && !HasUrl(event)
    ensures Handle(cfg, env, event).response.statusCode == 400
    ensures Handle(cfg, env, event).response.body == Body(MissingUrlMessage, None, None)
    ensures Handle(cfg, env, event).stored.None?
  {
  }

  /** A URL the validator refuses gets 400 with the validator's message,
      whatever `hashLength` says, and nothing is stored. */
  lemma RejectedUrlIsBadRequest(cfg: Config, env: Env, event: Event)
    requires HasUrl(event) && Validated(cfg, env, event).Err?
    ensures Handle(cfg, env, event).response.statusCode == 400
    ensures Handle(cfg, env, event).response.body ==
              Body(Validated(cfg, env, event).error.message, None, None)
    ensures Handle(cfg, env, event).stored.None?
  {
  }

  /** An allowed URL with a `hashLength` outside `[7, 12]` gets 400 with the
      range message, and nothing is hashed into the store. */
  lemma BadLengthIsBadRequest(cfg: Config, env: Env, event: Event)
    requires HasUrl(event) && Validated(cfg, env, event).Ok?
    requires !(event.hashLength.Absent? ||
               (event.hashLength.Numeric? && MinLength <= event.hashLength.n <= MaxLength))
    ensures Handle(cfg, env, event).response.statusCode == 400
    ensures Handle(cfg, env, event).response.body == Body(LengthMessage, None, None)
    ensures Handle(cfg, env, event).stored.None?
  {
  }

  /** When the store rejects, the response carries the store error's status
      (500 when it has none) and message, and no short URL. */
  lemma StoreFailureIsReported(cfg: Config, env: Env, event: Event, err: Error)
    requires HasUrl(event) && Validated(cfg, env, event).Ok?
    requires CalculateHash(event.hashLength, env.digests, event.url.value).Ok?
    requires var derived := CalculateHash(event.hashLength, env.digests, event.url.value).value;
             env.put(derived.hash, derived.longUrl) == Some(err)
    ensures Handle(cfg, env, event).response.statusCode == StatusOf(err)
    ensures err.statusCode.None? ==> Handle(cfg, env, event).response.statusCode == 500
    ensures Handle(cfg, env, event).response.body == Body(MessageOf(err), None, None)
    ensures Handle(cfg, env, event).stored.Some?
  {
  }

  /** The success path: the pair (hash, URL) goes to the store, and the
      response is 200 with the hash as path and `shortDomain/hash` as URL. */
  lemma SuccessReturnsShortUrl(cfg: Config, env: Env, event: Event)
    requires HasUrl(event) && Validated(cfg, env, event).Ok?
    requires CalculateHash(event.hashLength, env.digests, event.url.value).Ok?
    requires var derived := CalculateHash(event.hashLength, env.digests, event.url.value).value;
             env.put(derived.hash, derived.longUrl).None?
    ensures var hash := CalculateHash(event.hashLength, env.digests, event.url.value).value.hash;
            && Handle(cfg, env, event).response.statusCode == 200
            && Handle(cfg, env, event).response.body ==
                 Body(OkMessage, Some(hash), Some(cfg.shortDomain + "/" + hash))
            && Handle(cfg, env, event).stored == Some((hash, event.url.value))
  {
  }

  /** Every failure before the store is a 400; only the store's own error can
      produce another status. */
  lemma ClientErrorsAre400(cfg: Config, env: Env, event: Event)
    requires Handle(cfg, env, event).stored.None?
    ensures Handle(cfg, env, event).response.statusCode == 400
    ensures Handle(cfg, env, event).response.body.url.None?
  {
  }
}
