/** The fill-once file cache: the upstream retry loop and the three entry points that
    share the cache. The disk is a map from cache path to bytes; writes are complete. */
module FileCaches {
  import opened Wrappers
  import opened Decimals
  import opened ByteRanges

  type File = b: Bytes | |b| < U64 witness []

  /** What the try block may throw. Only a network error is a beast::system_error; the
      runtime_error of line 239 is its base class, not an instance of it. */
  datatype Exception = BeastSystemError | RuntimeError | OtherException

  /** What one attempt meets: an exception from a call, or a response with a status and a
      body, whose cache file can be opened or not. */
  datatype Attempt =
    | Raised(error: Exception)
    | Responded(status: nat, body: File, writable: bool)

  /** How the try block of one attempt ends. */
  datatype Ending = Returns(ok: bool) | Throws(error: Exception)

  /** Lines 231-254 and 271. */
  function TryBlock(a: Attempt): Ending {
    match a
    case Raised(e) => Throws(e)
    case Responded(status, _, writable) =>
      if status != 200 then
        if 400 <= status < 500 then Returns(false) else Throws(RuntimeError)
      else Returns(writable)
  }

  /** The first handler, on line 273, takes the exception; otherwise the second does. */
  predicate FirstHandler(e: Exception) {
    e.BeastSystemError?
  }

  /** The attempt is followed by another if the limit allows. */
  predicate Retried(a: Attempt) {
    TryBlock(a).Throws? && FirstHandler(TryBlock(a).error)
  }

  /** The attempt brings its body to the disk. */
  predicate Fetched(a: Attempt) {
    TryBlock(a) == Returns(true)
  }

  // ---- the retry loop -------------------------------------------------------------

  function Pow2(n: nat): (p: nat)
    ensures p >= 1
  {
    if n == 0 then 1 else 2 * Pow2(n - 1)
  }

  const INT_LIMIT: int := 0x8000_0000

  /** `1 << n` on a 32-bit int; None where the language leaves the shift undefined. */
  function Shift(n: nat): Option<int> {
    if n < 31 then Some(Pow2(n)) else if n == 31 then Some(-INT_LIMIT) else None
  }

  lemma ShiftOf31()
    ensures Shift(0) == Some(1) && Shift(31) == Some(-2147483648)
  {
  }

  /** The backoffs before `n` further attempts. */
  function Backoffs(n: nat): (s: seq<Option<int>>)
    ensures |s| == n
  {
    if n == 0 then [] else Backoffs(n - 1) + [Shift(n - 1)]
  }

  /** The seconds slept: a negative duration is no sleep, an undefined one is not counted. */
  function Slept(backoffs: seq<Option<int>>): nat {
    if backoffs == [] then 0
    else
      var last := backoffs[|backoffs| - 1];
      Slept(backoffs[..|backoffs| - 1]) + if last.Some? && last.value > 0 then last.value else 0
  }

  /** The number of attempts made when attempt `i` would end as `upstream(i)`. */
  function Attempts(upstream: nat -> Attempt, maxRetries: int, retry: nat): (a: nat)
    ensures a <= if retry < maxRetries then maxRetries - retry else 0
    ensures retry < maxRetries ==> a > 0
    ensures forall i: nat | retry <= i && i + 1 < retry + a :: Retried(upstream(i))
    ensures a > 0 && Retried(upstream(retry + a - 1)) ==> retry + a == maxRetries
    decreases maxRetries - retry
  {
    if retry >= maxRetries then 0
    else if Retried(upstream(retry)) then 1 + Attempts(upstream, maxRetries, retry + 1)
    else 1
  }

  /** What a fetch brings: the body of the last attempt made, if that succeeded. */
  function FetchResult(upstream: nat -> Attempt, maxRetries: int): Option<File> {
    var a := Attempts(upstream, maxRetries, 0);
    if a > 0 && Fetched(upstream(a - 1)) then Some(upstream(a - 1).body) else None
  }

  /** The retry schedule, for every sequence of outcomes: all attempts but the last were
      network errors, and the last was one only at the limit. */
  ghost predicate Schedule(upstream: nat -> Attempt, maxRetries: int, made: nat) {
    && made <= (if maxRetries > 0 then maxRetries else 0)
    && (maxRetries > 0 ==> made > 0)
    && (forall i: nat | i + 1 < made :: upstream(i) == Raised(BeastSystemError))
    && (0 < made < maxRetries ==> upstream(made - 1) != Raised(BeastSystemError))
  }

  /** The attempts made are the only number that fits the schedule. */
  lemma ScheduleIff(upstream: nat -> Attempt, maxRetries: int, made: nat)
    ensures Schedule(upstream, maxRetries, made) <==> made == Attempts(upstream, maxRetries, 0)
  {
    var a := Attempts(upstream, maxRetries, 0);
    if Schedule(upstream, maxRetries, made) {
      assert a < made ==> Retried(upstream(a - 1));
      assert made < a ==> Retried(upstream(made - 1));
    }
  }

  lemma {:induction false} SleptClosedForm(n: nat)
    requires n <= 31
    ensures Slept(Backoffs(n)) == Pow2(n) - 1
  {
    if n > 0 {
      SleptClosedForm(n - 1);
      assert Backoffs(n)[..n - 1] == Backoffs(n - 1);
    }
  }

  lemma {:induction false} SleptIsBounded(n: nat)
    requires n > 31
    ensures Slept(Backoffs(n)) == Pow2(31) - 1 < Pow2(n) - 1
  {
    assert Backoffs(n)[..n - 1] == Backoffs(n - 1);
    if n == 32 {
      SleptClosedForm(31);
    } else {
      SleptIsBounded(n - 1);
    }
  }

  /** The sleep of a fetch is 2^(made-1) - 1 seconds exactly if no more than 32 attempts
      are made; a later backoff is not a positive int. */
  lemma SleptIff(made: nat)
    requires made > 0
    ensures Slept(Backoffs(made - 1)) == Pow2(made - 1) - 1 <==> made <= 32
  {
    if made <= 32 { SleptClosedForm(made - 1); } else { SleptIsBounded(made - 1); }
  }

  /** Attempt `k` is a 200 response with this body that could be written, and every
      earlier attempt was a network error. */
  ghost predicate Brings(upstream: nat -> Attempt, k: nat, body: File) {
    && upstream(k) == Responded(200, body, true)
    && forall i: nat | i < k :: upstream(i) == Raised(BeastSystemError)
  }

  /** A fetch brings `body` exactly if some attempt within the limit does and every
      earlier attempt was a network error. */
  lemma FetchSucceedsIff(upstream: nat -> Attempt, maxRetries: int, body: File)
    ensures FetchResult(upstream, maxRetries) == Some(body) <==>
            exists k: nat :: k < maxRetries && Brings(upstream, k, body)
  {
    var a := Attempts(upstream, maxRetries, 0);
    if FetchResult(upstream, maxRetries) == Some(body) {
      assert a - 1 < maxRetries && Brings(upstream, a - 1, body);
    }
    if k: nat :| k < maxRetries && Brings(upstream, k, body) {
      assert k + 1 < a ==> Retried(upstream(k));
    }
  }

  /** Which attempts are retried and which succeed, whatever the status. */
  lemma EndingsIff(a: Attempt)
    ensures Retried(a) <==> a == Raised(BeastSystemError)
    ensures Fetched(a) <==> a.Responded? && a.status == 200 && a.writable
    ensures TryBlock(a) == Throws(RuntimeError) <==>
            a == Raised(RuntimeError) || (a.Responded? && a.status != 200 && !(400 <= a.status < 500))
  {
  }

  /** Whatever status a response has, its attempt is the last one, and the fetch succeeds
      exactly for 200. In particular a server error is not retried, contrary to the
      comment on line 235. */
  lemma ResponsesAreFinal(upstream: nat -> Attempt, maxRetries: int, k: nat)
    requires k < Attempts(upstream, maxRetries, 0) && upstream(k).Responded?
    ensures Attempts(upstream, maxRetries, 0) == k + 1
    ensures FetchResult(upstream, maxRetries) ==
            if upstream(k).status == 200 && upstream(k).writable then Some(upstream(k).body) else None
  {
    EndingsIff(upstream(k));
  }

  /** Every backoff that any outcome sequence can reach is a positive int. */
  ghost predicate BackoffsFit(maxRetries: int) {
    forall upstream: nat -> Attempt, i: nat ::
      i + 1 < Attempts(upstream, maxRetries, 0) ==> Shift(i).Some? && Shift(i).value > 0
  }

  lemma {:induction false} AlwaysFailing(maxRetries: int, retry: nat)
    requires retry <= maxRetries
    ensures Attempts(_ => Raised(BeastSystemError), maxRetries, retry) == maxRetries - retry
    decreases maxRetries - retry
  {
    if retry < maxRetries { AlwaysFailing(maxRetries, retry + 1); }
  }

  /** The int shift is safe exactly up to 32 retries. */
  lemma BackoffsFitIff(maxRetries: int)
    ensures BackoffsFit(maxRetries) <==> maxRetries <= 32
  {
    if maxRetries > 32 {
      var upstream: nat -> Attempt := _ => Raised(BeastSystemError);
      AlwaysFailing(maxRetries, 0);
      assert 31 + 1 < Attempts(upstream, maxRetries, 0) && Shift(31) == Some(-INT_LIMIT);
    }
  }

  // ---- one call -------------------------------------------------------------------

  /** get_cache_path: path operator/ on the directory and the request path without its
      leading slash. */
  function CachePath(cacheDir: string, requestPath: string): string {
    var clean := if requestPath != "" && requestPath[0] == '/' then requestPath[1..] else requestPath;
    if clean != "" && clean[0] == '/' then clean
    else if cacheDir == "" || cacheDir[|cacheDir| - 1] == '/' then cacheDir + clean
    else cacheDir + "/" + clean
  }

  predicate IsRelative(path: string) {
    path == "" || path[0] != '/'
  }

  /** The request path without its leading slash. */
  function CleanPath(path: string): string {
    if "/" <= path then path[1..] else path
  }

  /** The cache path is the directory, one slash and the clean path, or, for a path with
      two slashes in front, what follows the first of them. */
  lemma CachePathIs(cacheDir: string, path: string)
    ensures "//" <= path ==> CachePath(cacheDir, path) == path[1..]
    ensures !("//" <= path) ==>
              CachePath(cacheDir, path) ==
              cacheDir + (if cacheDir == "" || cacheDir[|cacheDir| - 1] == '/' then "" else "/") + CleanPath(path)
  {
  }

  /** Requests share a cached file exactly if their paths differ by no more than a leading
      slash; the directory is relative, or no path has two slashes in front. */
  lemma SameFileIff(cacheDir: string, p: string, q: string)
    requires IsRelative(cacheDir) || !("//" <= p || "//" <= q)
    ensures CachePath(cacheDir, p) == CachePath(cacheDir, q) <==> CleanPath(p) == CleanPath(q)
  {
    CachePathIs(cacheDir, p);
    CachePathIs(cacheDir, q);
    if "//" <= p <==> "//" <= q {
      if !("//" <= p) && CachePath(cacheDir, p) == CachePath(cacheDir, q) {
        var front := cacheDir + if cacheDir == "" || cacheDir[|cacheDir| - 1] == '/' then "" else "/";
        SameTail(front, CleanPath(p), CleanPath(q));
      }
    }
  }

  lemma SameTail(front: string, a: string, b: string)
    requires front + a == front + b
    ensures a == b
  {
    assert (front + a)[|front|..] == a && (front + b)[|front|..] == b;
  }

  /** A call of one of the three entry points. The clock and file-time comparisons of a
      conditional call enter as their results. */
  datatype Call =
    | Plain(path: string)
    | Ranged(path: string, header: string)
    | Conditional(path: string, ifModifiedSince: string, ifNoneMatch: string, modified: bool, etag: string)

  datatype Reply =
    | NullReply
    | Full(body: Bytes)
    | Partial(body: Bytes, contentLength: nat, contentRange: string)
    | NotModified

  type Disk = map<string, File>

  /** Lines 429-465: a valid range is a window, anything else the whole file. */
  function ServeRange(file: File, w: Option<Window>): Reply
    requires w.Some? ==> w.value.start <= w.value.end < |file|
  {
    if w.None? then Full(file)
    else Partial(Slice(file, w.value), ContentLength(w.value), ContentRange(w.value, |file|))
  }

  function ServeFile(file: File, call: Call): Reply {
    match call
    case Plain(_) => Full(file)
    case Ranged(_, header) => ServeRange(file, ParseRangeHeader(header, |file|))
    case Conditional(_, since, noneMatch, modified, etag) =>
      if since != "" && !modified then NotModified
      else if noneMatch != "" && noneMatch == etag then NotModified
      else Full(file)
  }

  /** A valid range is answered with exactly its bytes, its length and a Content-Range of
      its positions and the file size; any other range header with the whole file. */
  lemma RangeReply(file: File, path: string, header: string)
    ensures var w, reply := ParseRangeHeader(header, |file|), ServeFile(file, Ranged(path, header));
            if w.None? then reply == Full(file)
            else
              && reply.Partial? && reply.body == file[w.value.start..w.value.end + 1]
              && reply.contentLength == w.value.end - w.value.start + 1 == |reply.body|
              && reply.contentRange == "bytes " + Print(w.value.start) + "-" + Print(w.value.end) + "/" + Print(|file|)
  {
    var w := ParseRangeHeader(header, |file|);
    if w.Some? { SliceIs(file, w.value); }
  }

  /** A conditional call is answered 304 exactly if it has a date and the file is not
      modified since, or it has a tag and that is the file's; else with the whole file. */
  lemma ConditionalReply(file: File, path: string, since: string, noneMatch: string, modified: bool, etag: string)
    ensures ServeFile(file, Conditional(path, since, noneMatch, modified, etag)) ==
            if (since != "" && !modified) || (noneMatch != "" && noneMatch == etag) then NotModified else Full(file)
  {
  }

  /** The disk after a call, given what a fetch would bring if it were made now. */
  function FillDisk(disk: Disk, key: string, fetch: Option<File>): Disk {
    if key in disk || fetch.None? then disk else disk[key := fetch.value]
  }

  /** The reply to a call, from the disk as it is after the fetch. */
  function Serve(cacheDir: string, disk: Disk, call: Call): Reply {
    var key := CachePath(cacheDir, call.path);
    if key in disk then ServeFile(disk[key], call) else NullReply
  }

  class FileCache {
    const cacheDir: string
    var disk: Disk

    constructor (cacheDir: string)
      ensures this.cacheDir == cacheDir && disk == map[]
    {
      this.cacheDir := cacheDir;
      disk := map[];
    }

    method IsCached(path: string) returns (cached: bool)
      ensures cached <==> CachePath(cacheDir, path) in disk
    {
      cached := CachePath(cacheDir, path) in disk;
    }

    /** Lines 187-271, the try block: a 200 response is written to disk, a 4xx one gives
        up, any other throws. */
    method AttemptOnce(path: string, attempt: Attempt) returns (ending: Ending)
      modifies this
      ensures ending == TryBlock(attempt)
      ensures disk == if Fetched(attempt) then old(disk)[CachePath(cacheDir, path) := attempt.body] else old(disk)
    {
      match attempt {
        case Raised(error) =>
          return Throws(error);
        case Responded(status, body, writable) =>
          if status != 200 {
            if status >= 400 && status < 500 {
              return Returns(false);
            }
            return Throws(RuntimeError);
          }
          if !writable {
            return Returns(false);
          }
          disk := disk[CachePath(cacheDir, path) := body];
          return Returns(true);
      }
    }

    /** Only a network error leads to another attempt, after a backoff. A fetch that fails
        leaves the disk as it was. */
    method FetchFromUpstream(path: string, upstream: nat -> Attempt, maxRetries: int)
      returns (ok: bool, made: nat, backoffs: seq<Option<int>>)
      modifies this
      ensures made == Attempts(upstream, maxRetries, 0)
      ensures backoffs == Backoffs(if made == 0 then 0 else made - 1)
      ensures ok <==> FetchResult(upstream, maxRetries).Some?
      ensures ok ==> disk == old(disk)[CachePath(cacheDir, path) := FetchResult(upstream, maxRetries).value]
      ensures !ok ==> disk == old(disk)
    {
      ok, made, backoffs := false, 0, [];
      var retry := 0;
      while retry < maxRetries
        invariant made == retry && retry < (if maxRetries > 0 then maxRetries else 1)
        invariant backoffs == Backoffs(retry)
        invariant Attempts(upstream, maxRetries, 0) == retry + Attempts(upstream, maxRetries, retry)
        invariant disk == old(disk) && !ok
        decreases maxRetries - retry
      {
        made := made + 1;
        var ending := AttemptOnce(path, upstream(retry));
        match ending {
          case Returns(written) =>
            ok := written;
            return;
          case Throws(error) =>
            if !error.BeastSystemError? {
              return;
            }
            if retry == maxRetries - 1 {
              return;
            }
            backoffs := backoffs + [Shift(retry)];
        }
        retry := retry + 1;
      }
    }

    method EnsureCached(path: string, upstream: nat -> Attempt, maxRetries: int) returns (ok: bool)
      modifies this
      ensures disk == FillDisk(old(disk), CachePath(cacheDir, path), FetchResult(upstream, maxRetries))
      ensures ok <==> CachePath(cacheDir, path) in disk
    {
      ok := IsCached(path);
      if !ok {
        var fetched, _, _ := FetchFromUpstream(path, upstream, maxRetries);
        ok := fetched;
      }
    }

    method GetOrFetch(path: string, upstream: nat -> Attempt, maxRetries: int) returns (reply: Reply)
      modifies this
      ensures disk == FillDisk(old(disk), CachePath(cacheDir, path), FetchResult(upstream, maxRetries))
      ensures reply == Serve(cacheDir, disk, Plain(path))
    {
      var ok := EnsureCached(path, upstream, maxRetries);
      if !ok {
        return NullReply;
      }
      reply := Full(disk[CachePath(cacheDir, path)]);
    }

    method GetOrFetchWithRange(path: string, header: string, upstream: nat -> Attempt, maxRetries: int)
      returns (reply: Reply)
      modifies this
      ensures disk == FillDisk(old(disk), CachePath(cacheDir, path), FetchResult(upstream, maxRetries))
      ensures reply == Serve(cacheDir, disk, Ranged(path, header))
    {
      var ok := EnsureCached(path, upstream, maxRetries);
      if !ok {
        return NullReply;
      }
      var file := disk[CachePath(cacheDir, path)];
      var range := ParseRangeHeader(header, |file|);
      if range.None? || header == "" {
        reply := GetOrFetch(path, upstream, maxRetries);
      } else {
        reply := Partial(Slice(file, range.value), ContentLength(range.value), ContentRange(range.value, |file|));
      }
    }

    method GetOrFetchWithConditional(path: string, ifModifiedSince: string, ifNoneMatch: string,
                                     modified: bool, etag: string, upstream: nat -> Attempt, maxRetries: int)
      returns (reply: Reply)
      modifies this
      ensures disk == FillDisk(old(disk), CachePath(cacheDir, path), FetchResult(upstream, maxRetries))
      ensures reply == Serve(cacheDir, disk, Conditional(path, ifModifiedSince, ifNoneMatch, modified, etag))
    {
      var ok := EnsureCached(path, upstream, maxRetries);
      if !ok {
        return NullReply;
      }
      if ifModifiedSince != "" && !modified {
        return NotModified;
      }
      if ifNoneMatch != "" && etag == ifNoneMatch {
        return NotModified;
      }
      reply := Full(disk[CachePath(cacheDir, path)]);
    }
  }
}
