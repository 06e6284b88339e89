/** The node request router over the index: how a request target is decoded, and how
    one request is answered. */
module NodeRouters {
  import opened Wrappers
  import opened Strings
  import opened QueryParams
  import opened DhtTables
  import opened DhtNodes
  import opened DhtOperations

  datatype Verb = GetVerb | PostVerb | OtherVerb

  /** The body is the entry its JSON decodes to, or None if it does not decode. */
  datatype Request = Request(verb: Verb, target: string, body: Option<DhtEntry>)

  datatype Body =
    | Verified(nodeId: string, exists_: bool)
    | Stored(nodeId: string)
    | InvalidJson
    | Listed(shardId: string, nodeIds: set<string>)
    | MissingShardId
    | ExpiredCleaned
    | UnhealthyCleaned
    | UnknownOperation
    | InvalidApiPath

  datatype Response = Response(status: nat, body: Body)

  const API: string := "/api/dht/"
  const SHARD_PARAM: string := "shard_id="

  // ---- decoding the target ------------------------------------------------------

  /** Lines 51-70: the operation and its parameters. */
  function Split(path: string): (string, string) {
    var query := Find(path, "?", 0);
    if query.Some? then (path[..query.value], path[query.value + 1..])
    else if Find(path, "clean/", 0) == Some(0) then (path, "")
    else
      var slash := Find(path, "/", 0);
      if slash.Some? then (path[..slash.value], path[slash.value + 1..])
      else (path, "")
  }

  /** Lines 108-118: the shard_id parameter, "" if it is missing. */
  function ShardIdOf(params: string): string {
    ParamOf(params, SHARD_PARAM)
  }

  datatype Command =
    | VerifyNode(nodeId: string)
    | StoreEntryBody
    | QueryShard(shardId: string)
    | CleanExpiry
    | CleanLiveness
    | NoOperation
    | NotApi

  /** Lines 73-171: the operation a method, a name and parameters select. */
  function Select(verb: Verb, operation: string, params: string): Command {
    if operation == "verify" && params != "" then VerifyNode(params)
    else if operation == "store" && verb == PostVerb then StoreEntryBody
    else if operation == "query" then QueryShard(ShardIdOf(params))
    else if operation == "clean/expiry" && verb == PostVerb then CleanExpiry
    else if operation == "clean/liveness" && verb == PostVerb then CleanLiveness
    else NoOperation
  }

  function Decode(verb: Verb, target: string): Command {
    if Find(target, API, 0) != Some(0) then NotApi
    else
      var (operation, params) := Split(target[|API|..]);
      Select(verb, operation, params)
  }

  lemma StartsWith(s: string, prefix: string)
    ensures Find(s, prefix, 0) == Some(0) <==> prefix <= s
  {
    assert prefix <= s <==> OccursAt(s, prefix, 0);
    FindIsFirst(s, prefix, 0);
  }

  lemma FoundIffPresent(s: string, c: char)
    ensures Find(s, [c], 0).Some? <==> c in s
  {
    FindCharSplits(s, c, 0);
    assert s[0..] == s;
  }

  /** `path` is `op`, the separator `c`, and anything. */
  predicate Names(path: string, op: string, c: char) {
    |op| < |path| && path[..|op|] == op && path[|op|] == c
  }

  /** `path` is `op`, the separator `c`, and `params`. */
  predicate Joined(path: string, op: string, c: char, params: string) {
    Names(path, op, c) && path[|op| + 1..] == params
  }

  lemma JoinedIff(path: string, op: string, c: char, params: string)
    ensures Joined(path, op, c, params) <==> path == op + [c] + params
  {
    if Joined(path, op, c, params) {
      assert path == path[..|op|] + [path[|op|]] + path[|op| + 1..];
    }
  }

  /** The first separator cuts a path in the only possible way. */
  lemma FirstCharCuts(path: string, c: char, op: string, params: string)
    requires c !in op
    ensures Joined(path, op, c, params) <==>
            var i := Find(path, [c], 0); i.Some? && path[..i.value] == op && path[i.value + 1..] == params
  {
    CharGuard(path, c, 0, |op|);
    assert |op| <= |path| ==> path[0..|op|] == path[..|op|];
    var i := Find(path, [c], 0);
    if i.Some? { CharGuard(path, c, 0, i.value); }
  }

  /** Which paths split into a given one-word operation and parameters. */
  lemma SplitIff(path: string, op: string, params: string)
    requires '?' !in op && '/' !in op && op != "clean"
    ensures Split(path) == (op, params) <==>
            || Joined(path, op, '?', params)
            || ('?' !in path && Joined(path, op, '/', params))
            || ('?' !in path && path == op && params == "")
  {
    FirstCharCuts(path, '?', op, params);
    FirstCharCuts(path, '/', op, params);
    FoundIffPresent(path, '?');
    FoundIffPresent(path, '/');
    StartsWith(path, "clean/");
    if "clean/" <= path {
      assert path[5] == '/' && path[..5] == "clean" && path[..6][..5] == "clean";
      FirstCharCuts(path, '/', "clean", path[6..]);
    }
  }

  /** Which paths split into a clean operation: its own path, alone or with a query. */
  lemma SplitCleanIff(path: string, op: string)
    requires "clean/" <= op && '?' !in op
    ensures Split(path).0 == op <==> path == op || Names(path, op, '?')
  {
    FoundIffPresent(path, '?');
    FoundIffPresent(path, '/');
    StartsWith(path, "clean/");
    assert op[5] == '/';
    if |op| < |path| { FirstCharCuts(path, '?', op, path[|op| + 1..]); }
    var query, slash := Find(path, "?", 0), Find(path, "/", 0);
    if query.Some? { CharGuard(path, '?', 0, query.value); }
    if slash.Some? {
      CharGuard(path, '/', 0, slash.value);
      assert path[..slash.value] == path[0..slash.value];
    }
  }

  /** Which operation each command comes from. */
  lemma SelectIff(verb: Verb, operation: string, params: string)
    ensures forall id :: Select(verb, operation, params) == VerifyNode(id) <==>
                         operation == "verify" && params == id && id != ""
    ensures Select(verb, operation, params) == StoreEntryBody <==> operation == "store" && verb == PostVerb
    ensures operation == "query" ==> Select(verb, operation, params) == QueryShard(ShardIdOf(params))
    ensures Select(verb, operation, params).QueryShard? ==> operation == "query"
    ensures Select(verb, operation, params) == CleanExpiry <==> operation == "clean/expiry" && verb == PostVerb
    ensures Select(verb, operation, params) == CleanLiveness <==> operation == "clean/liveness" && verb == PostVerb
  {
    var verify, clean: string := "verify", "clean/expiry";
    assert |verify| == 6 && |clean| == 12;
  }

  lemma DecodeApi(verb: Verb, path: string)
    ensures Decode(verb, API + path) == Select(verb, Split(path).0, Split(path).1)
  {
    StartsWith(API + path, API);
    assert (API + path)[|API|..] == path;
  }

  /** Exactly these paths verify `id`: verify/{id} for an id without '?', and
      verify?{id}. In both, the id arrives unchanged. */
  lemma VerifyTargets(verb: Verb, path: string, id: string)
    ensures Decode(verb, "/api/dht/" + path) == VerifyNode(id) <==>
            && id != ""
            && (path == "verify" + "?" + id || (path == "verify" + "/" + id && '?' !in id))
  {
    DecodeApi(verb, path);
    SelectIff(verb, Split(path).0, Split(path).1);
    SplitIff(path, "verify", id);
    JoinedIff(path, "verify", '?', id);
    JoinedIff(path, "verify", '/', id);
  }

  /** `path` is query with these parameters. */
  predicate QueryPath(path: string, params: string) {
    || path == "query" + "?" + params
    || ('?' !in path && path == "query" + "/" + params)
    || (path == "query" && params == "")
  }

  /** Exactly these paths ask for the shard `s`, or for none if `s` is empty: query, a
      question mark or a slash, and parameters that name it. */
  lemma QueryTargets(verb: Verb, path: string, s: string)
    ensures Decode(verb, "/api/dht/" + path) == QueryShard(s) <==>
            exists params :: QueryPath(path, params) && Gives(params, "shard_id=", s)
  {
    DecodeApi(verb, path);
    SelectIff(verb, Split(path).0, Split(path).1);
    forall params ensures QueryPath(path, params) <==> Split(path) == ("query", params) {
      JoinedIff(path, "query", '?', params);
      JoinedIff(path, "query", '/', params);
      SplitIff(path, "query", params);
    }
    ParamIff(Split(path).1, SHARD_PARAM, s);
  }

  /** Exactly these requests store their body. */
  lemma StoreTargets(verb: Verb, path: string)
    ensures Decode(verb, "/api/dht/" + path) == StoreEntryBody <==>
            && verb == PostVerb
            && (path == "store" || Names(path, "store", '?') || (Names(path, "store", '/') && '?' !in path))
  {
    DecodeApi(verb, path);
    SelectIff(verb, Split(path).0, Split(path).1);
    SplitIff(path, "store", Split(path).1);
    if |path| >= 6 { SplitIff(path, "store", path[6..]); }
    if path == "store" { SplitIff(path, "store", ""); }
  }

  /** Exactly these requests clean by expiry. */
  lemma CleanTargets(verb: Verb, path: string)
    ensures Decode(verb, "/api/dht/" + path) == CleanExpiry <==>
            verb == PostVerb && (path == "clean/expiry" || Names(path, "clean/expiry", '?'))
  {
    DecodeApi(verb, path);
    SelectIff(verb, Split(path).0, Split(path).1);
    SplitCleanIff(path, "clean/expiry");
  }

  /** A target outside /api/dht/ is refused. */
  lemma OtherTargets(verb: Verb, target: string)
    ensures Decode(verb, target) == NotApi <==> !("/api/dht/" <= target)
  {
    StartsWith(target, API);
  }

  /** The documented targets, written out: the id and the shard arrive unchanged. */
  lemma DocumentedTargets(verb: Verb, id: string, s: string)
    ensures id != "" && '?' !in id ==> Decode(verb, "/api/dht/verify/" + id) == VerifyNode(id)
    ensures '&' !in s ==> Decode(verb, "/api/dht/query?shard_id=" + s) == QueryShard(s)
    ensures Decode(PostVerb, "/api/dht/store") == StoreEntryBody
    ensures Decode(PostVerb, "/api/dht/clean/expiry") == CleanExpiry
  {
    VerifyTarget(verb, id);
    QueryTarget(verb, s);
    var store, clean := "store", "clean/expiry";
    assert "/api/dht/" + store == "/api/dht/store" && "/api/dht/" + clean == "/api/dht/clean/expiry";
    StoreTargets(PostVerb, store);
    CleanTargets(PostVerb, clean);
  }

  lemma VerifyTarget(verb: Verb, id: string)
    ensures id != "" && '?' !in id ==> Decode(verb, "/api/dht/verify/" + id) == VerifyNode(id)
  {
    var path := "verify" + "/" + id;
    assert "/api/dht/" + path == "/api/dht/verify/" + id;
    VerifyTargets(verb, path, id);
  }

  lemma QueryTarget(verb: Verb, s: string)
    ensures '&' !in s ==> Decode(verb, "/api/dht/query?shard_id=" + s) == QueryShard(s)
  {
    var none, params := "", "shard_id=" + s;
    var path := "query" + "?" + params;
    assert "/api/dht/" + path == "/api/dht/query?shard_id=" + s;
    assert params == none + ("shard_id=" + (s + none));
    QueryTargets(verb, path, s);
    assert '&' !in s ==> NamedAfter(params, "shard_id=", none, s, none);
    assert QueryPath(path, params);
  }

  // ---- one request ------------------------------------------------------------------

  /** One request against the nine tables. */
  function TablesStep(t: Tables, req: Request, now: int): (Tables, Response) {
    match Decode(req.verb, req.target)
    case VerifyNode(id) => (t, Response(200, Verified(id, id in t.idToGeneration)))
    case StoreEntryBody =>
      (match req.body
       case Some(e) => (StoreTables(t, e), Response(201, Stored(e.nodeId)))
       case None => (t, Response(400, InvalidJson)))
    case QueryShard(s) =>
      if s == "" then (t, Response(400, MissingShardId))
      else
        var ids := QueryTables(t, s);
        (t, Response(200, Listed(s, if ids.Some? then ids.value else {})))
    case CleanExpiry => (CleanTables(t, now), Response(200, ExpiredCleaned))
    case CleanLiveness => (t, Response(200, UnhealthyCleaned))
    case NoOperation => (t, Response(404, UnknownOperation))
    case NotApi => (t, Response(400, InvalidApiPath))
  }

  /** The same request against the simple map. */
  function NodesStep(m: Nodes, req: Request, now: int): (Nodes, Response) {
    match Decode(req.verb, req.target)
    case VerifyNode(id) => (m, Response(200, Verified(id, id in m)))
    case StoreEntryBody =>
      (match req.body
       case Some(e) => (StoreNode(m, e), Response(201, Stored(e.nodeId)))
       case None => (m, Response(400, InvalidJson)))
    case QueryShard(s) =>
      if s == "" then (m, Response(400, MissingShardId))
      else (m, Response(200, Listed(s, Holders(m, s))))
    case CleanExpiry => (CleanNodes(m, now), Response(200, ExpiredCleaned))
    case CleanLiveness => (m, Response(200, UnhealthyCleaned))
    case NoOperation => (m, Response(404, UnknownOperation))
    case NotApi => (m, Response(400, InvalidApiPath))
  }

  lemma VerifySimulates(t: Tables, m: Nodes, id: string)
    requires Refines(t, m)
    ensures id in t.idToGeneration <==> id in m
  {
  }

  lemma QuerySimulates(t: Tables, m: Nodes, s: string)
    requires Refines(t, m)
    ensures (if QueryTables(t, s).Some? then QueryTables(t, s).value else {}) == Holders(m, s)
  {
    MembersAreHolders(t, m, s);
  }

  lemma StepSimulates(t: Tables, m: Nodes, req: Request, now: int)
    requires Refines(t, m)
    ensures Refines(TablesStep(t, req, now).0, NodesStep(m, req, now).0)
    ensures TablesStep(t, req, now).1 == NodesStep(m, req, now).1
  {
    match Decode(req.verb, req.target)
    case VerifyNode(id) => VerifySimulates(t, m, id);
    case StoreEntryBody => if req.body.Some? { StoreRefines(t, m, req.body.value); }
    case QueryShard(s) => QuerySimulates(t, m, s);
    case CleanExpiry => CleanRefines(t, m, now);
    case _ =>
  }

  /** The answer to each request, by its target and method, written out. */
  lemma DocumentedAnswers(m: Nodes, verb: Verb, id: string, s: string, body: Option<DhtEntry>, now: int)
    ensures id != "" && '?' !in id ==>
              NodesStep(m, Request(verb, "/api/dht/verify/" + id, body), now) ==
              (m, Response(200, Verified(id, id in m)))
    ensures s != "" && '&' !in s ==>
              NodesStep(m, Request(verb, "/api/dht/query?shard_id=" + s, body), now) ==
              (m, Response(200, Listed(s, Holders(m, s))))
    ensures NodesStep(m, Request(verb, "/api/dht/query?shard_id=", body), now) == (m, Response(400, MissingShardId))
    ensures body.Some? ==>
              NodesStep(m, Request(PostVerb, "/api/dht/store", body), now) ==
              (StoreNode(m, body.value), Response(201, Stored(body.value.nodeId)))
    ensures NodesStep(m, Request(PostVerb, "/api/dht/store", None), now) == (m, Response(400, InvalidJson))
    ensures NodesStep(m, Request(PostVerb, "/api/dht/clean/expiry", body), now) ==
            (CleanNodes(m, now), Response(200, ExpiredCleaned))
  {
    DocumentedTargets(verb, id, s);
    var none := "";
    DocumentedTargets(verb, id, none);
    assert "/api/dht/query?shard_id=" + none == "/api/dht/query?shard_id=";
  }

  /** Anything else changes nothing and is answered 400 outside the prefix and, within it,
      200 for cleaning by liveness and 404 for an operation that is not one of these. */
  lemma OtherAnswers(m: Nodes, req: Request, now: int)
    ensures !("/api/dht/" <= req.target) ==> NodesStep(m, req, now) == (m, Response(400, InvalidApiPath))
    ensures Decode(req.verb, req.target) == NoOperation ==>
              NodesStep(m, req, now) == (m, Response(404, UnknownOperation))
    ensures Decode(req.verb, req.target) == CleanLiveness ==>
              NodesStep(m, req, now) == (m, Response(200, UnhealthyCleaned))
  {
    OtherTargets(req.verb, req.target);
  }

  /** Exactly these requests are unknown operations, among those whose path is one word. */
  lemma UnknownTargets(verb: Verb, word: string)
    requires '?' !in word && '/' !in word
    ensures Decode(verb, "/api/dht/" + word) == NoOperation <==>
            word != "query" && !(word == "store" && verb == PostVerb)
  {
    DecodeApi(verb, word);
    FoundIffPresent(word, '?');
    FoundIffPresent(word, '/');
    StartsWith(word, "clean/");
    var clean: string := "clean/";
    assert clean[5] == '/';
    assert Split(word) == (word, "");
    var expiry, liveness: string := "clean/expiry", "clean/liveness";
    assert expiry[5] == '/' && liveness[5] == '/';
  }

  /** And exactly these clean by liveness. */
  lemma LivenessTargets(verb: Verb, path: string)
    ensures Decode(verb, "/api/dht/" + path) == CleanLiveness <==>
            verb == PostVerb && (path == "clean/liveness" || Names(path, "clean/liveness", '?'))
  {
    DecodeApi(verb, path);
    SelectIff(verb, Split(path).0, Split(path).1);
    SplitCleanIff(path, "clean/liveness");
  }

  class NodeRouter {
    const dht: DhtOperation

    constructor (dht: DhtOperation)
      ensures this.dht == dht
    {
      this.dht := dht;
    }

    /** The response to every request is the one the simple map would give. */
    method NodeResponseRouter(request: Request, now: int) returns (response: Response)
      requires dht.Valid()
      modifies dht
      ensures dht.Valid()
      ensures (dht.nodes, response) == NodesStep(old(dht.nodes), request, now)
      ensures (dht.Tables(), response) == TablesStep(old(dht.Tables()), request, now)
    {
      StepSimulates(dht.Tables(), dht.nodes, request, now);
      var target := request.target;
      if Find(target, API, 0) != Some(0) {
        return Response(400, InvalidApiPath);
      }
      var path := target[|API|..];
      var operation, params := SplitPath(path);
      if operation == "verify" && params != "" {
        var exists_ := dht.VerifyEntry(params);
        response := Response(200, Verified(params, exists_));
      } else if operation == "store" && request.verb == PostVerb {
        match request.body {
          case Some(entry) =>
            dht.StoreEntry(entry);
            response := Response(201, Stored(entry.nodeId));
          case None =>
            response := Response(400, InvalidJson);
        }
      } else if operation == "query" {
        var shardId := ShardIdOf(params);
        if shardId != "" {
          var ids := dht.QueryNodeIdsByShardId(shardId);
          response := Response(200, Listed(shardId, if ids.Some? then ids.value else {}));
        } else {
          response := Response(400, MissingShardId);
        }
      } else if operation == "clean/expiry" && request.verb == PostVerb {
        dht.CleanByExpiryTime(now);
        response := Response(200, ExpiredCleaned);
      } else if operation == "clean/liveness" && request.verb == PostVerb {
        response := Response(200, UnhealthyCleaned);
      } else {
        response := Response(404, UnknownOperation);
      }
    }

    /** Lines 51-70, step by step. */
    method SplitPath(path: string) returns (operation: string, params: string)
      ensures (operation, params) == Split(path)
    {
      operation, params := path, "";
      var queryPos := Find(path, "?", 0);
      if queryPos.Some? {
        operation, params := path[..queryPos.value], path[queryPos.value + 1..];
      } else if Find(path, "clean/", 0) != Some(0) {
        var slashPos := Find(path, "/", 0);
        if slashPos.Some? {
          operation, params := path[..slashPos.value], path[slashPos.value + 1..];
        }
      }
    }
  }
}
