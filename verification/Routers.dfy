/** global_router: dispatch on the validated request type, the plain client router, and
    how the index and the cache share one server without touching each other. */
module Routers {
  import opened Wrappers
  import opened Strings
  import opened QueryParams
  import opened DhtTables
  import opened DhtOperations
  import opened NodeRouters
  import opened ByteRanges
  import opened FileCaches
  import opened RequestRuns
  import opened CacheRuns

  /** The validator's verdict is an input. */
  datatype RequestType = PlainClient | Node | Invalid

  /** A missing header is "". `modified` and `etag` are what the conditional checks find. */
  datatype HttpRequest = HttpRequest(
    kind: RequestType,
    node: Request,
    range: string,
    ifModifiedSince: string,
    ifNoneMatch: string,
    modified: bool,
    etag: string)

  datatype HttpResponse =
    | FromNode(response: Response)
    | FromCache(reply: Reply)
    | Text(status: nat, body: string)

  const TARGET_PARAM: string := "target="

  // ---- the plain client router ------------------------------------------------------

  /** Lines 202-217: the target parameter of the query string, "" if there is none. */
  function TargetParam(target: string): string {
    var query := Find(target, "?", 0);
    if query.None? then "" else ParamOf(target[query.value + 1..], TARGET_PARAM)
  }

  /** Line 243. */
  function Slashed(s: string): string
    requires s != ""
  {
    if s[0] == '/' then s else "/" + s
  }

  /** The file path a plain request asks for; None is the greeting. */
  function PlainPath(target: string): Option<string> {
    var param := TargetParam(target);
    if param != "" then Some(Slashed(param))
    else
      var query := Find(target, "?", 0);
      var path := if query.Some? then target[..query.value] else target;
      if path != "/" && path != "" then Some(path) else None
  }

  /** Range before conditional before normal. */
  function CallFor(req: HttpRequest, path: string): Call {
    if req.range != "" then Ranged(path, req.range)
    else if req.ifModifiedSince != "" || req.ifNoneMatch != "" then
      Conditional(path, req.ifModifiedSince, req.ifNoneMatch, req.modified, req.etag)
    else Plain(path)
  }

  /** A failed fetch is a 502, except on the conditional route, which hands its null
      response on. */
  function Finish(call: Call, reply: Reply): HttpResponse {
    if reply.NullReply? && !call.Conditional? then Text(502, "Failed to fetch file from upstream.")
    else FromCache(reply)
  }

  /** The disk after a plain request, given what a fetch would bring then. */
  function PlainDisk(cacheDir: string, disk: Disk, req: HttpRequest, fetch: Option<File>): Disk {
    var path := PlainPath(req.node.target);
    if path.None? then disk else FillDisk(disk, CachePath(cacheDir, path.value), fetch)
  }

  /** The answer to a plain request, from the disk as it is after the fetch. */
  function PlainAnswer(cacheDir: string, disk: Disk, req: HttpRequest): HttpResponse {
    var path := PlainPath(req.node.target);
    if path.None? then Text(200, "Hello from pacPrism!")
    else Finish(CallFor(req, path.value), Serve(cacheDir, disk, CallFor(req, path.value)))
  }

  /** The target asks for `p` by a target parameter `s`, whatever its path. */
  ghost predicate AsksByParam(target: string, p: string, path: string, params: string, s: string) {
    && target == path + "?" + params && '?' !in path
    && s != "" && Gives(params, "target=", s) && p == if s[0] == '/' then s else "/" + s
  }

  /** The target is the path `p`, alone or with a query string whose target is empty. */
  ghost predicate AsksDirectly(target: string, p: string) {
    && p != "" && p != "/" && '?' !in p
    && (target == p || exists params :: target == p + "?" + params && Gives(params, "target=", ""))
  }

  /** The first question mark cuts a target in the only possible way. */
  lemma TargetCuts(target: string, path: string, params: string)
    requires '?' !in path
    ensures target == path + "?" + params <==>
            var i := Find(target, "?", 0); i.Some? && target[..i.value] == path && target[i.value + 1..] == params
  {
    JoinedIff(target, path, '?', params);
    FirstCharCuts(target, '?', path, params);
  }

  lemma WithoutQuery(target: string, p: string)
    requires '?' !in target
    ensures PlainPath(target) == Some(p) <==> AsksDirectly(target, p)
    ensures forall path, params, s :: !AsksByParam(target, p, path, params, s)
  {
    FoundIffPresent(target, '?');
    assert forall path, params :: '?' in path + "?" + params by {
      forall path: string, params ensures '?' in path + "?" + params { assert (path + "?" + params)[|path|] == '?'; }
    }
  }

  lemma WithQuery(target: string, p: string, path: string, params: string)
    requires target == path + "?" + params && '?' !in path
    ensures PlainPath(target) == Some(p) <==>
            AsksDirectly(target, p) || exists s :: AsksByParam(target, p, path, params, s)
  {
    var s := ParamOf(params, TARGET_PARAM);
    assert target[|path|] == '?';
    TargetCuts(target, path, params);
    ParamIff(params, TARGET_PARAM, s);
    assert s != "" ==> PlainPath(target) == Some(Slashed(s));
    assert s == "" ==> PlainPath(target) == if path != "/" && path != "" then Some(path) else None;
    if AsksDirectly(target, p) {
      var params' :| target == p + "?" + params' && Gives(params', TARGET_PARAM, "");
      TargetCuts(target, p, params');
      ParamIff(params, TARGET_PARAM, "");
    }
    if s' :| AsksByParam(target, p, path, params, s') {
      ParamIff(params, TARGET_PARAM, s');
    }
    assert s != "" ==> AsksByParam(target, Slashed(s), path, params, s);
    assert s == "" && path != "/" && path != "" ==> AsksDirectly(target, path);
  }

  lemma TargetSplits(target: string) returns (path: string, params: string)
    requires '?' in target
    ensures target == path + "?" + params && '?' !in path
  {
    FoundIffPresent(target, '?');
    FindCharSplits(target, '?', 0);
    var i := Find(target, "?", 0).value;
    path, params := target[..i], target[i + 1..];
    assert target[0..i] == path;
    assert target == path + [target[i]] + params;
  }

  /** Exactly these targets ask for the file `p`: any path with a target parameter that is
      `p`, its leading slash written or not, and `p` itself with no such parameter. */
  lemma PlainTargets(target: string, p: string)
    ensures PlainPath(target) == Some(p) <==>
            AsksDirectly(target, p) || exists path, params, s :: AsksByParam(target, p, path, params, s)
  {
    if '?' in target {
      var path, params := TargetSplits(target);
      WithQuery(target, p, path, params);
      forall path', params', s | AsksByParam(target, p, path', params', s) ensures path' == path && params' == params {
        TargetCuts(target, path, params);
        TargetCuts(target, path', params');
      }
    } else {
      WithoutQuery(target, p);
    }
  }

  /** A Range header decides the answer for a cached file, whatever the other headers: its
      window, or the whole file if it has none. */
  lemma RangedAnswer(cacheDir: string, disk: Disk, req: HttpRequest, path: string)
    requires PlainPath(req.node.target) == Some(path) && CachePath(cacheDir, path) in disk && req.range != ""
    ensures var file := disk[CachePath(cacheDir, path)];
            var w, answer := ParseRangeHeader(req.range, |file|), PlainAnswer(cacheDir, disk, req);
            if w.None? then answer == FromCache(Full(file))
            else
              && answer.FromCache? && answer.reply.Partial?
              && answer.reply.body == file[w.value.start..w.value.end + 1]
              && answer.reply.contentLength == w.value.end - w.value.start + 1
  {
    RangeReply(disk[CachePath(cacheDir, path)], path, req.range);
  }

  /** Without one, the answer is 304 exactly if a date header finds the file not modified
      or a tag header is the file's tag, and the whole file otherwise. */
  lemma UnrangedAnswer(cacheDir: string, disk: Disk, req: HttpRequest, path: string)
    requires PlainPath(req.node.target) == Some(path) && CachePath(cacheDir, path) in disk && req.range == ""
    ensures PlainAnswer(cacheDir, disk, req) ==
            FromCache(
              if (req.ifModifiedSince != "" && !req.modified) || (req.ifNoneMatch != "" && req.ifNoneMatch == req.etag)
              then NotModified
              else Full(disk[CachePath(cacheDir, path)]))
  {
    var file := disk[CachePath(cacheDir, path)];
    ConditionalReply(file, path, req.ifModifiedSince, req.ifNoneMatch, req.modified, req.etag);
  }

  /** And for one that could not be fetched: 502, except that a conditional request without
      a Range header gets a null response. */
  lemma MissingAnswer(cacheDir: string, disk: Disk, req: HttpRequest, path: string)
    requires PlainPath(req.node.target) == Some(path) && CachePath(cacheDir, path) !in disk
    ensures PlainAnswer(cacheDir, disk, req) ==
            if req.range == "" && (req.ifModifiedSince != "" || req.ifNoneMatch != "") then FromCache(NullReply)
            else Text(502, "Failed to fetch file from upstream.")
  {
  }

  /** Other plain requests are greeted, and invalid ones refused, without a change. */
  lemma GreetedOrRefused(cacheDir: string, s: State, a: Arrival)
    ensures a.request.kind == PlainClient && PlainPath(a.request.node.target).None? ==>
              && GlobalState(cacheDir, s, a) == s
              && GlobalAnswer(cacheDir, s.tables, s.disk, a.request, a.now) == Text(200, "Hello from pacPrism!")
    ensures a.request.kind == Invalid ==>
              && GlobalState(cacheDir, s, a) == s
              && GlobalAnswer(cacheDir, s.tables, s.disk, a.request, a.now) == Text(400, "Invalid request.")
  {
  }

  // ---- one server -------------------------------------------------------------------

  class Router {
    const nodeRouter: NodeRouter
    const cache: FileCache

    constructor (dht: DhtOperation, cache: FileCache)
      ensures nodeRouter.dht == dht && this.cache == cache && fresh(nodeRouter)
    {
      nodeRouter := new NodeRouter(dht);
      this.cache := cache;
    }

    method PlainResponseRouter(req: HttpRequest, upstream: nat -> Attempt, maxRetries: int)
      returns (response: HttpResponse)
      modifies cache
      ensures cache.disk == PlainDisk(cache.cacheDir, old(cache.disk), req, FetchResult(upstream, maxRetries))
      ensures response == PlainAnswer(cache.cacheDir, cache.disk, req)
    {
      var path := PlainPath(req.node.target);
      if path.None? {
        return Text(200, "Hello from pacPrism!");
      }
      var reply: Reply;
      if req.range != "" {
        reply := cache.GetOrFetchWithRange(path.value, req.range, upstream, maxRetries);
      } else if req.ifModifiedSince != "" || req.ifNoneMatch != "" {
        reply := cache.GetOrFetchWithConditional(path.value, req.ifModifiedSince, req.ifNoneMatch,
                                                 req.modified, req.etag, upstream, maxRetries);
        return FromCache(reply);
      } else {
        reply := cache.GetOrFetch(path.value, upstream, maxRetries);
      }
      if reply.NullReply? {
        return Text(502, "Failed to fetch file from upstream.");
      }
      return FromCache(reply);
    }

    method GlobalRouter(req: HttpRequest, now: int, upstream: nat -> Attempt, maxRetries: int)
      returns (response: HttpResponse)
      requires nodeRouter.dht.Valid()
      modifies nodeRouter.dht, cache
      ensures nodeRouter.dht.Valid()
      ensures State(nodeRouter.dht.Tables(), cache.disk) ==
              GlobalState(cache.cacheDir, State(old(nodeRouter.dht.Tables()), old(cache.disk)),
                          Arrival(req, now, FetchResult(upstream, maxRetries)))
      ensures response == GlobalAnswer(cache.cacheDir, old(nodeRouter.dht.Tables()), cache.disk, req, now)
    {
      match req.kind {
        case PlainClient =>
          response := PlainResponseRouter(req, upstream, maxRetries);
        case Node =>
          var r := nodeRouter.NodeResponseRouter(req.node, now);
          response := FromNode(r);
        case Invalid =>
          response := Text(400, "Invalid request.");
      }
    }
  }

  // ---- runs of the whole server -------------------------------------------------------

  datatype State = State(tables: Tables, disk: Disk)

  /** A request, the clock when it is served, and what a fetch would bring then. */
  datatype Arrival = Arrival(request: HttpRequest, now: int, fetch: Option<File>)

  function GlobalState(cacheDir: string, s: State, a: Arrival): State {
    match a.request.kind
    case PlainClient => s.(disk := PlainDisk(cacheDir, s.disk, a.request, a.fetch))
    case Node => s.(tables := TablesStep(s.tables, a.request.node, a.now).0)
    case Invalid => s
  }

  /** The answer, from the tables before the request and the disk after its fetch. */
  function GlobalAnswer(cacheDir: string, tables: Tables, disk: Disk, req: HttpRequest, now: int): HttpResponse {
    match req.kind
    case PlainClient => PlainAnswer(cacheDir, disk, req)
    case Node => FromNode(TablesStep(tables, req.node, now).1)
    case Invalid => Text(400, "Invalid request.")
  }

  function StateAfter(cacheDir: string, arrivals: seq<Arrival>): State {
    if arrivals == [] then State(EMPTY_TABLES, map[])
    else GlobalState(cacheDir, StateAfter(cacheDir, arrivals[..|arrivals| - 1]), arrivals[|arrivals| - 1])
  }

  function ResponseTo(cacheDir: string, arrivals: seq<Arrival>, k: nat): HttpResponse
    requires k < |arrivals|
  {
    GlobalAnswer(cacheDir, StateAfter(cacheDir, arrivals[..k]).tables, StateAfter(cacheDir, arrivals[..k + 1]).disk,
                 arrivals[k].request, arrivals[k].now)
  }

  /** The node requests of a run, in order. */
  function NodePart(arrivals: seq<Arrival>): seq<Timed> {
    if arrivals == [] then []
    else
      var init, last := NodePart(arrivals[..|arrivals| - 1]), arrivals[|arrivals| - 1];
      if last.request.kind == Node then init + [Timed(last.request.node, last.now)] else init
  }

  /** The cache call of a request, if it makes one. */
  function EventOf(a: Arrival): seq<Event> {
    var path := PlainPath(a.request.node.target);
    if a.request.kind != PlainClient || path.None? then []
    else [Event(CallFor(a.request, path.value), a.fetch)]
  }

  /** The cache calls of a run, in order. */
  function CachePart(arrivals: seq<Arrival>): seq<Event> {
    if arrivals == [] then [] else CachePart(arrivals[..|arrivals| - 1]) + EventOf(arrivals[|arrivals| - 1])
  }

  lemma OneEventAtMost(cacheDir: string, s: State, a: Arrival)
    ensures GlobalState(cacheDir, s, a).disk ==
            if EventOf(a) == [] then s.disk else FillDisk(s.disk, Key(cacheDir, EventOf(a)[0]), EventOf(a)[0].fetch)
    ensures |EventOf(a)| <= 1
  {
  }

  /** In every interleaving the index is what the node requests alone make of it. */
  lemma {:induction false} IndexSeesOnlyNodes(cacheDir: string, arrivals: seq<Arrival>)
    ensures StateAfter(cacheDir, arrivals).tables == TablesAfter(NodePart(arrivals))
  {
    if arrivals != [] {
      var init, last := arrivals[..|arrivals| - 1], arrivals[|arrivals| - 1];
      IndexSeesOnlyNodes(cacheDir, init);
      if last.request.kind == Node {
        assert NodePart(arrivals)[..|NodePart(init)|] == NodePart(init);
      }
    }
  }

  /** And the cache is what the plain requests alone make of it. */
  lemma {:induction false} CacheSeesOnlyPlain(cacheDir: string, arrivals: seq<Arrival>)
    ensures StateAfter(cacheDir, arrivals).disk == DiskAfter(cacheDir, map[], CachePart(arrivals))
  {
    if arrivals != [] {
      var init, last := arrivals[..|arrivals| - 1], arrivals[|arrivals| - 1];
      CacheSeesOnlyPlain(cacheDir, init);
      OneEventAtMost(cacheDir, StateAfter(cacheDir, init), last);
      CacheStepsByEvents(cacheDir, CachePart(init), EventOf(last));
    }
  }

  lemma CacheStepsByEvents(cacheDir: string, events: seq<Event>, more: seq<Event>)
    requires |more| <= 1
    ensures DiskAfter(cacheDir, map[], events + more) ==
            if more == [] then DiskAfter(cacheDir, map[], events)
            else FillDisk(DiskAfter(cacheDir, map[], events), Key(cacheDir, more[0]), more[0].fetch)
  {
    if more == [] {
      assert events + more == events;
    } else {
      assert more == [more[0]];
      DiskOneMore(cacheDir, map[], events, more[0]);
    }
  }

  /** A node request is answered as in the run of node requests alone: by the simple map. */
  lemma NodeAnswersAreIsolated(cacheDir: string, arrivals: seq<Arrival>, k: nat)
    requires k < |arrivals| && arrivals[k].request.kind == Node
    ensures ResponseTo(cacheDir, arrivals, k) ==
            FromNode(NodesStep(NodesAfter(NodePart(arrivals[..k])), arrivals[k].request.node, arrivals[k].now).1)
  {
    var past := NodePart(arrivals[..k]);
    IndexSeesOnlyNodes(cacheDir, arrivals[..k]);
    RequestsRefine(past);
    StepSimulates(TablesAfter(past), NodesAfter(past), arrivals[k].request.node, arrivals[k].now);
  }

  /** A file request is answered from the first successful fetch of its path, whatever
      node requests came between. */
  lemma FileAnswersComeFromFirstFetch(cacheDir: string, arrivals: seq<Arrival>, k: nat)
    requires k < |arrivals| && arrivals[k].request.kind == PlainClient
    requires PlainPath(arrivals[k].request.node.target).Some?
    ensures var call := CallFor(arrivals[k].request, PlainPath(arrivals[k].request.node.target).value);
            var content := FirstFetch(cacheDir, CachePart(arrivals[..k + 1]), CachePath(cacheDir, call.path));
            ResponseTo(cacheDir, arrivals, k) ==
            Finish(call, if content.None? then NullReply else ServeFile(content.value, call))
  {
    CacheSeesOnlyPlain(cacheDir, arrivals[..k + 1]);
    var call := CallFor(arrivals[k].request, PlainPath(arrivals[k].request.node.target).value);
    CacheHoldsFirstFetch(cacheDir, map[], CachePart(arrivals[..k + 1]), CachePath(cacheDir, call.path));
  }
}
