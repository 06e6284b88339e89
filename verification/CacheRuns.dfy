/** Every run of cache calls against an upstream that may change between calls. */
module CacheRuns {
  import opened Wrappers
  import opened Decimals
  import opened ByteRanges
  import opened FileCaches

  /** A call, and what a fetch would bring if one were made for it. */
  datatype Event = Event(call: Call, fetch: Option<File>)

  function Key(cacheDir: string, e: Event): string {
    CachePath(cacheDir, e.call.path)
  }

  function DiskAfter(cacheDir: string, disk: Disk, events: seq<Event>): Disk {
    if events == [] then disk
    else
      var last := events[|events| - 1];
      FillDisk(DiskAfter(cacheDir, disk, events[..|events| - 1]), Key(cacheDir, last), last.fetch)
  }

  function ReplyTo(cacheDir: string, disk: Disk, events: seq<Event>, k: nat): Reply
    requires k < |events|
  {
    Serve(cacheDir, DiskAfter(cacheDir, disk, events[..k + 1]), events[k].call)
  }

  lemma DiskOneMore(cacheDir: string, disk: Disk, events: seq<Event>, e: Event)
    ensures DiskAfter(cacheDir, disk, events + [e]) ==
            FillDisk(DiskAfter(cacheDir, disk, events), Key(cacheDir, e), e.fetch)
  {
    assert (events + [e])[..|events|] == events;
  }

  /** The body of the first event for `key` whose fetch can succeed. */
  function FirstFetch(cacheDir: string, events: seq<Event>, key: string): Option<File> {
    if events == [] then None
    else if Key(cacheDir, events[0]) == key && events[0].fetch.Some? then events[0].fetch
    else FirstFetch(cacheDir, events[1..], key)
  }

  /** What the cache should hold for `key`: what was there, or the first fetch. */
  function Content(cacheDir: string, disk: Disk, events: seq<Event>, key: string): Option<File> {
    if key in disk then Some(disk[key]) else FirstFetch(cacheDir, events, key)
  }

  lemma {:induction false} FirstFetchOneMore(cacheDir: string, events: seq<Event>, e: Event, key: string)
    ensures FirstFetch(cacheDir, events + [e], key) ==
            var f := FirstFetch(cacheDir, events, key);
            if f.Some? then f else if Key(cacheDir, e) == key then e.fetch else None
  {
    if events == [] {
      assert [] + [e] == [e] && [e][1..] == [];
    } else {
      assert (events + [e])[1..] == events[1..] + [e];
      FirstFetchOneMore(cacheDir, events[1..], e, key);
    }
  }

  /** The cache holds, for every path, exactly the body of its first successful fetch. */
  lemma {:induction false} CacheHoldsFirstFetch(cacheDir: string, disk: Disk, events: seq<Event>, key: string)
    ensures var d := DiskAfter(cacheDir, disk, events);
            Content(cacheDir, disk, events, key) == if key in d then Some(d[key]) else None
  {
    if events != [] {
      var init, last := events[..|events| - 1], events[|events| - 1];
      CacheHoldsFirstFetch(cacheDir, disk, init, key);
      assert events == init + [last];
      FirstFetchOneMore(cacheDir, init, last, key);
    }
  }

  /** Every reply of every run is served from the first successful fetch of its path: a
      null reply if there has been none, else its bytes, a window of them, or 304. */
  lemma RepliesComeFromFirstFetch(cacheDir: string, disk: Disk, events: seq<Event>, k: nat)
    requires k < |events|
    ensures var content := Content(cacheDir, disk, events[..k + 1], Key(cacheDir, events[k]));
            ReplyTo(cacheDir, disk, events, k) ==
            if content.None? then NullReply else ServeFile(content.value, events[k].call)
  {
    CacheHoldsFirstFetch(cacheDir, disk, events[..k + 1], Key(cacheDir, events[k]));
  }

  // ---- request paths --------------------------------------------------------------------

  /** The body of the first event for the same request path whose fetch can succeed. */
  function FetchOf(events: seq<Event>, path: string): Option<File> {
    if events == [] then None
    else if CleanPath(events[0].call.path) == CleanPath(path) && events[0].fetch.Some? then events[0].fetch
    else FetchOf(events[1..], path)
  }

  /** The directory is relative, or no request path has two slashes in front. */
  predicate PathsApart(cacheDir: string, events: seq<Event>) {
    IsRelative(cacheDir) || forall i | 0 <= i < |events| :: !("//" <= events[i].call.path)
  }

  lemma {:induction false} FetchIsPerPath(cacheDir: string, events: seq<Event>, path: string)
    requires PathsApart(cacheDir, events) && (IsRelative(cacheDir) || !("//" <= path))
    ensures FirstFetch(cacheDir, events, CachePath(cacheDir, path)) == FetchOf(events, path)
  {
    if events != [] {
      SameFileIff(cacheDir, events[0].call.path, path);
      FetchIsPerPath(cacheDir, events[1..], path);
    }
  }

  /** From an empty cache, every reply is served from the first successful fetch of its
      own request path, and never from that of another. */
  lemma RepliesArePerPath(cacheDir: string, events: seq<Event>, k: nat)
    requires k < |events| && PathsApart(cacheDir, events)
    ensures ReplyTo(cacheDir, map[], events, k) ==
            var fetch := FetchOf(events[..k + 1], events[k].call.path);
            if fetch.None? then NullReply else ServeFile(fetch.value, events[k].call)
  {
    RepliesComeFromFirstFetch(cacheDir, map[], events, k);
    FetchIsPerPath(cacheDir, events[..k + 1], events[k].call.path);
  }

  /** Event `k` contacts the upstream. */
  predicate Fetches(cacheDir: string, disk: Disk, events: seq<Event>, k: nat)
    requires k < |events|
  {
    Key(cacheDir, events[k]) !in DiskAfter(cacheDir, disk, events[..k])
  }

  lemma {:induction false} FirstFetchStays(cacheDir: string, events: seq<Event>, more: seq<Event>, key: string)
    requires FirstFetch(cacheDir, events, key).Some?
    ensures FirstFetch(cacheDir, events + more, key) == FirstFetch(cacheDir, events, key)
  {
    assert (events + more)[0] == events[0];
    assert (events + more)[1..] == events[1..] + more;
    if !(Key(cacheDir, events[0]) == key && events[0].fetch.Some?) {
      FirstFetchStays(cacheDir, events[1..], more, key);
    }
  }

  /** Content, once there, never changes. */
  lemma ContentStays(cacheDir: string, disk: Disk, events: seq<Event>, i: nat, j: nat, key: string)
    requires i <= j <= |events| && Content(cacheDir, disk, events[..i], key).Some?
    ensures Content(cacheDir, disk, events[..j], key) == Content(cacheDir, disk, events[..i], key)
  {
    if key !in disk {
      assert events[..j] == events[..i] + events[i..j];
      FirstFetchStays(cacheDir, events[..i], events[i..j], key);
    }
  }

  /** At most one fetch per path succeeds: after it, no call for the path fetches. */
  lemma OneSuccessfulFetchPerPath(cacheDir: string, disk: Disk, events: seq<Event>, i: nat, j: nat)
    requires i < j < |events| && Key(cacheDir, events[i]) == Key(cacheDir, events[j])
    requires Fetches(cacheDir, disk, events, i) && events[i].fetch.Some?
    ensures !Fetches(cacheDir, disk, events, j)
  {
    var key := Key(cacheDir, events[i]);
    assert events[..i + 1] == events[..i] + [events[i]];
    CacheHoldsFirstFetch(cacheDir, disk, events[..i], key);
    FirstFetchOneMore(cacheDir, events[..i], events[i], key);
    ContentStays(cacheDir, disk, events, i + 1, j, key);
    CacheHoldsFirstFetch(cacheDir, disk, events[..j], key);
  }

  /** A client that kept the first `k` bytes of a full reply and later asks for "k-"
      completes exactly that reply, whatever the upstream did in between. */
  lemma ResumeAcrossRun(cacheDir: string, disk: Disk, events: seq<Event>, i: nat, j: nat, body: Bytes, k: string)
    requires i < j < |events| && Key(cacheDir, events[i]) == Key(cacheDir, events[j])
    requires ReplyTo(cacheDir, disk, events, i) == Full(body) && IsNumber(k) && Value(k) < |body|
    requires events[j].call == Ranged(events[j].call.path, FromHeader(k))
    ensures var reply := ReplyTo(cacheDir, disk, events, j);
            reply.Partial? && body[..Value(k)] + reply.body == body && reply.contentLength == |body| - Value(k)
  {
    var file := SameContent(cacheDir, disk, events, i, j);
    FullIsContent(file, events[i].call, body);
    ServeRest(file, events[j].call.path, k);
  }

  /** Two calls of one path, the first of them answered, are served from one file. */
  lemma SameContent(cacheDir: string, disk: Disk, events: seq<Event>, i: nat, j: nat) returns (file: File)
    requires i < j < |events| && Key(cacheDir, events[i]) == Key(cacheDir, events[j])
    requires ReplyTo(cacheDir, disk, events, i) != NullReply
    ensures ReplyTo(cacheDir, disk, events, i) == ServeFile(file, events[i].call)
    ensures ReplyTo(cacheDir, disk, events, j) == ServeFile(file, events[j].call)
  {
    var key := Key(cacheDir, events[i]);
    var content := Content(cacheDir, disk, events[..i + 1], key);
    assert content.Some? && ReplyTo(cacheDir, disk, events, i) == ServeFile(content.value, events[i].call) by {
      RepliesComeFromFirstFetch(cacheDir, disk, events, i);
    }
    file := content.value;
    assert ReplyTo(cacheDir, disk, events, j) == ServeFile(file, events[j].call) by {
      ContentStays(cacheDir, disk, events, i + 1, j + 1, key);
      RepliesComeFromFirstFetch(cacheDir, disk, events, j);
    }
  }

  // ---- ranges over a run ----------------------------------------------------------------

  /** Event `k` is a range call of the path, its header parses to `w`, and it is answered
      by `reply`, which is not null. */
  predicate AnswersRange(cacheDir: string, disk: Disk, events: seq<Event>, key: string, size: nat,
                         k: nat, w: Window, reply: Reply)
    requires size < U64
  {
    && k < |events| && events[k].call.Ranged? && Key(cacheDir, events[k]) == key
    && ParseRangeHeader(events[k].call.header, size) == Some(w)
    && reply == ReplyTo(cacheDir, disk, events, k) != NullReply
  }

  predicate ServesWindow(file: File, w: Window, reply: Reply) {
    w.start <= w.end < |file| && reply.Partial? && reply.body == file[w.start..w.end + 1]
  }

  /** The bodies of partial replies, one after another. */
  function Bodies(replies: seq<Reply>): Bytes {
    if replies == [] then []
    else (if replies[0].Partial? then replies[0].body else []) + Bodies(replies[1..])
  }

  lemma RangeIsServed(cacheDir: string, disk: Disk, events: seq<Event>, key: string, file: File,
                      k: nat, w: Window, reply: Reply)
    requires Content(cacheDir, disk, events, key) == Some(file)
    requires AnswersRange(cacheDir, disk, events, key, |file|, k, w, reply)
    ensures ServesWindow(file, w, reply)
  {
    var content := Content(cacheDir, disk, events[..k + 1], key);
    assert content.Some? && reply == ServeFile(content.value, events[k].call) by {
      RepliesComeFromFirstFetch(cacheDir, disk, events, k);
    }
    assert content.value == file by {
      ContentStays(cacheDir, disk, events, k + 1, |events|, key);
      assert events[..|events|] == events;
    }
    RangeReply(file, events[k].call.path, events[k].call.header);
  }

  lemma {:induction false} BodiesCover(file: File, windows: seq<Window>, replies: seq<Reply>)
    requires |replies| == |windows|
    requires forall i | 0 <= i < |replies| :: ServesWindow(file, windows[i], replies[i])
    ensures AllInside(windows, |file|) && Bodies(replies) == Cover(file, windows)
  {
    if replies != [] {
      SliceIs(file, windows[0]);
      assert forall i | 0 <= i < |replies| - 1 ::
          windows[1..][i] == windows[i + 1] && replies[1..][i] == replies[i + 1];
      BodiesCover(file, windows[1..], replies[1..]);
    }
  }

  /** The replies to consecutive ranges of one path that tile the file, asked at any times
      and in any spelling, join to the whole of its first successful fetch. */
  lemma RangesJoinAcrossRun(cacheDir: string, disk: Disk, events: seq<Event>, key: string, file: File,
                            ks: seq<nat>, windows: seq<Window>, replies: seq<Reply>)
    requires Content(cacheDir, disk, events, key) == Some(file)
    requires |ks| == |windows| == |replies| > 0
    requires forall i | 0 <= i < |ks| ::
               AnswersRange(cacheDir, disk, events, key, |file|, ks[i], windows[i], replies[i])
    requires Consecutive(windows) && windows[0].start == 0 && windows[|windows| - 1].end + 1 == |file|
    ensures Bodies(replies) == file
  {
    forall i | 0 <= i < |ks| ensures ServesWindow(file, windows[i], replies[i]) {
      RangeIsServed(cacheDir, disk, events, key, file, ks[i], windows[i], replies[i]);
    }
    BodiesCover(file, windows, replies);
    CoverJoins(file, windows);
  }

  lemma FullIsContent(file: File, call: Call, body: Bytes)
    requires ServeFile(file, call) == Full(body)
    ensures file == body
  {
  }

  lemma ServeWindow(file: File, path: string, header: string, held: nat, size: nat)
    requires held < |file| == size && ParseRangeHeader(header, size) == Some(Window(held, size - 1))
    ensures var reply := ServeFile(file, Ranged(path, header));
            reply.Partial? && file[..held] + reply.body == file && reply.contentLength == size - held
  {
    SliceIs(file, Window(held, size - 1));
  }

  lemma ServeRest(file: File, path: string, k: string)
    requires IsNumber(k) && Value(k) < |file|
    ensures var reply := ServeFile(file, Ranged(path, FromHeader(k)));
            && reply.Partial? && file[..Value(k)] + reply.body == file
            && reply.contentLength == |file| - Value(k)
  {
    var header, held, size := FromHeader(k), Value(k), |file|;
    assert ParseRangeHeader(header, size) == Some(Window(held, size - 1)) by { FromWindow(k, size); }
    ServeWindow(file, path, header, held, size);
  }
}
