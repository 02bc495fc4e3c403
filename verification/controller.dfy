/**
 * go/cmd/controller.go: the two HTTP handlers. Each refuses a request without
 * a language, otherwise hands the request's context to the text getter and
 * answers 200 with its map or passes its error on to the error middleware.
 */
module Controller {
  import opened Models
  import opened RequestContext
  import opened Service
  import HttpUtil

  /** What a handler reads from the request: its id, its locale and the path parameter. */
  datatype Request = Request(requestId: string, locale: string, param: string)

  /** What a handler writes: a JSON body with a status, or an error for the middleware. */
  datatype Response = Json(status: int, body: Texts) | Failed(error: HttpUtil.Error)

  /** The status code the client sees. */
  function StatusCode(resp: Response): int
  {
    match resp
    case Json(status, _) => status
    case Failed(err) => HttpUtil.Status(err)
  }

  /** `createContext`: the getter sees the request's id and its locale as the language. */
  function CreateContext(req: Request): (ctx: Context)
    ensures ctx.id == req.requestId && ctx.language == req.locale
  {
    RequestContext.New(req.requestId, req.locale)
  }

  /** `getTextByKey`, serving GET /v1/texts/key/{key}. */
  function GetTextByKey(textGetter: Getter, req: Request): (resp: Response)
    reads textGetter.Footprint()
    ensures req.locale == "" ==> resp == Failed(HttpUtil.BadRequest("No language specified"))
    ensures req.locale != "" ==> (resp.Json? <==> textGetter.Get(CreateContext(req), req.param).Success?)
    ensures resp.Json? ==>
              resp.status == HttpUtil.StatusOK && textGetter.Get(CreateContext(req), req.param).Success? &&
              resp.body == textGetter.Get(CreateContext(req), req.param).value
    ensures resp.Failed? && req.locale != "" ==>
              textGetter.Get(CreateContext(req), req.param).Failure? &&
              resp.error == textGetter.Get(CreateContext(req), req.param).error
  {
    var ctx := CreateContext(req);
    if ctx.language == "" then Failed(HttpUtil.BadRequest("No language specified"))
    else
      match textGetter.Get(ctx, req.param)
      case Failure(err) => Failed(err)
      case Success(texts) => Json(HttpUtil.StatusOK, texts)
  }

  /** `getTextGroup`, serving GET /v1/texts/group/{groupId}. */
  function GetTextGroup(textGetter: Getter, req: Request): (resp: Response)
    reads textGetter.Footprint()
    ensures req.locale == "" ==> resp == Failed(HttpUtil.BadRequest("No language specified"))
    ensures req.locale != "" ==> (resp.Json? <==> textGetter.GetGroup(CreateContext(req), req.param).Success?)
    ensures resp.Json? ==>
              resp.status == HttpUtil.StatusOK && textGetter.GetGroup(CreateContext(req), req.param).Success? &&
              resp.body == textGetter.GetGroup(CreateContext(req), req.param).value
    ensures resp.Failed? && req.locale != "" ==>
              textGetter.GetGroup(CreateContext(req), req.param).Failure? &&
              resp.error == textGetter.GetGroup(CreateContext(req), req.param).error
  {
    var ctx := CreateContext(req);
    if ctx.language == "" then Failed(HttpUtil.BadRequest("No language specified"))
    else
      match textGetter.GetGroup(ctx, req.param)
      case Failure(err) => Failed(err)
      case Success(texts) => Json(HttpUtil.StatusOK, texts)
  }

  /**
   * A request without a language never reaches the getter: the answer is the
   * same 400 whichever getter, in whatever state, the handler was given.
   */
  lemma EmptyLanguageIgnoresGetter(g1: Getter, g2: Getter, req: Request)
    requires req.locale == ""
    ensures GetTextByKey(g1, req) == GetTextByKey(g2, req)
    ensures GetTextGroup(g1, req) == GetTextGroup(g2, req)
    ensures StatusCode(GetTextByKey(g1, req)) == 400 && StatusCode(GetTextGroup(g1, req)) == 400
  {
  }
}
