/** Range headers: 64-bit unsigned arithmetic over text, against section 2.1 of RFC 7233. */
module ByteRanges {
  import opened Wrappers
  import opened Strings
  import opened Decimals

  newtype byte = x: int | 0 <= x < 256

  type Bytes = seq<byte>

  /** The start and end of a RangeInfo whose `valid` flag is set; those of an invalid
      one are never read. */
  datatype Window = Window(start: nat, end: nat)

  const BYTES_PREFIX: string := "bytes="

  /** size_t arithmetic, wrapping modulo 2^64. */
  function Sub64(a: nat, b: nat): nat
    requires a < U64 && b < U64
  {
    if a >= b then a - b else a - b + U64
  }

  function Add64(a: nat, b: nat): nat
    requires a < U64 && b < U64
  {
    if a + b < U64 then a + b else a + b - U64
  }

  /** Lines 373-391. */
  function Bounds(startStr: string, endStr: string, fileSize: nat): (w: Option<Window>)
    requires fileSize < U64
    ensures w.Some? ==> w.value.start < U64 && w.value.end < U64
  {
    if startStr == "" then
      var suffix := Stoull(endStr);
      if suffix.None? then None
      else Some(Window(if suffix.value > fileSize then 0 else Sub64(fileSize, suffix.value), Sub64(fileSize, 1)))
    else if endStr == "" then
      var start := Stoull(startStr);
      if start.None? then None else Some(Window(start.value, Sub64(fileSize, 1)))
    else
      var start, end := Stoull(startStr), Stoull(endStr);
      if start.None? || end.None? then None else Some(Window(start.value, end.value))
  }

  /** Lines 393-399. */
  function Validated(w: Option<Window>, fileSize: nat): (v: Option<Window>)
    ensures v.Some? ==> v.value.start <= v.value.end < fileSize
  {
    if w.None? || w.value.start >= fileSize || w.value.end >= fileSize || w.value.start > w.value.end then None
    else w
  }

  /** parse_range_header, for a file of `fileSize` bytes; None is an invalid range. */
  function ParseRangeHeader(header: string, fileSize: nat): (v: Option<Window>)
    requires fileSize < U64
    ensures v.Some? ==> v.value.start <= v.value.end < fileSize
  {
    if !(BYTES_PREFIX <= header) then None
    else
      var spec := header[|BYTES_PREFIX|..];
      var dash := Find(spec, "-", 0);
      if dash.None? then None
      else Validated(Bounds(spec[..dash.value], spec[dash.value + 1..], fileSize), fileSize)
  }

  /** Line 454. */
  function ContentLength(w: Window): nat
    requires w.start < U64 && w.end < U64
  {
    Add64(Sub64(w.end, w.start), 1)
  }

  /** Line 463. */
  function ContentRange(w: Window, fileSize: nat): string {
    "bytes " + Print(w.start) + "-" + Print(w.end) + "/" + Print(fileSize)
  }

  /** For every header text and every file size, an accepted window lies in the file and
      its 64-bit length does not wrap; an empty file never yields one. */
  lemma RangeIsSafe(header: string, fileSize: nat)
    requires fileSize < U64
    ensures var w := ParseRangeHeader(header, fileSize);
            w.Some? ==>
              && w.value.start <= w.value.end < fileSize
              && ContentLength(w.value) == w.value.end - w.value.start + 1
              && 1 <= ContentLength(w.value) <= fileSize
    ensures fileSize == 0 ==> ParseRangeHeader(header, fileSize).None?
  {
  }

  // ---- the standard -------------------------------------------------------------

  /** A single byte-range-spec of RFC 7233, its numbers as written. */
  datatype RangeSpec =
    | FromTo(first: string, last: string)
    | From(first: string)
    | Suffix(length: string)

  predicate WellFormed(spec: RangeSpec) {
    match spec
    case FromTo(first, last) => IsNumber(first) && IsNumber(last)
    case From(first) => IsNumber(first)
    case Suffix(length) => IsNumber(length)
  }

  /** What stands before and after the dash. */
  function Start(spec: RangeSpec): string {
    match spec
    case FromTo(first, _) => first
    case From(first) => first
    case Suffix(_) => ""
  }

  function End(spec: RangeSpec): string {
    match spec
    case FromTo(_, last) => last
    case From(_) => ""
    case Suffix(length) => length
  }

  function Render(spec: RangeSpec): string {
    Start(spec) + "-" + End(spec)
  }

  /** The first and last byte positions the standard selects, over unbounded numbers;
      None if the spec is invalid or selects nothing. A last position past the end
      means the end, and an overlong suffix means the whole file. */
  function StandardWindow(spec: RangeSpec, fileSize: nat): Option<Window>
    requires WellFormed(spec)
  {
    match spec
    case FromTo(first, last) =>
      if Value(last) < Value(first) || Value(first) >= fileSize then None
      else Some(Window(Value(first), if Value(last) < fileSize then Value(last) else fileSize - 1))
    case From(first) =>
      if Value(first) >= fileSize then None else Some(Window(Value(first), fileSize - 1))
    case Suffix(length) =>
      if Value(length) == 0 || fileSize == 0 then None
      else Some(Window(if Value(length) < fileSize then fileSize - Value(length) else 0, fileSize - 1))
  }

  /** What the program accepts of the standard: an explicit last position inside the
      file, a suffix length that fits 64 bits. */
  predicate Supported(spec: RangeSpec, fileSize: nat)
    requires WellFormed(spec)
  {
    match spec
    case FromTo(_, last) => Value(last) < fileSize
    case From(_) => true
    case Suffix(length) => Value(length) < U64
  }

  /** How a header splits at its first dash. */
  lemma SplitsAtDash(a: string, b: string, fileSize: nat)
    requires fileSize < U64 && '-' !in a
    ensures ParseRangeHeader(BYTES_PREFIX + (a + "-" + b), fileSize) == Validated(Bounds(a, b, fileSize), fileSize)
  {
    var spec := a + "-" + b;
    var header := BYTES_PREFIX + spec;
    assert header[..|BYTES_PREFIX|] == BYTES_PREFIX && header[|BYTES_PREFIX|..] == spec;
    FindCharAfter(a, '-', b);
    assert spec[..|a|] == a && spec[|a| + 1..] == b;
  }

  lemma FromToRefines(first: string, last: string, fileSize: nat)
    requires IsNumber(first) && IsNumber(last) && fileSize < U64
    ensures Validated(Bounds(first, last, fileSize), fileSize) ==
            if Value(last) < fileSize then StandardWindow(FromTo(first, last), fileSize) else None
  {
    StoullOfNumber(first);
    StoullOfNumber(last);
  }

  lemma FromRefines(first: string, fileSize: nat)
    requires IsNumber(first) && fileSize < U64
    ensures Validated(Bounds(first, "", fileSize), fileSize) == StandardWindow(From(first), fileSize)
  {
    StoullOfNumber(first);
  }

  lemma SuffixRefines(length: string, fileSize: nat)
    requires IsNumber(length) && fileSize < U64
    ensures Validated(Bounds("", length, fileSize), fileSize) ==
            if Value(length) < U64 then StandardWindow(Suffix(length), fileSize) else None
  {
    StoullOfNumber(length);
  }

  lemma BoundsRefineStandard(spec: RangeSpec, fileSize: nat)
    requires WellFormed(spec) && fileSize < U64
    ensures Validated(Bounds(Start(spec), End(spec), fileSize), fileSize) ==
            if Supported(spec, fileSize) then StandardWindow(spec, fileSize) else None
  {
    match spec
    case FromTo(first, last) => FromToRefines(first, last, fileSize);
    case From(first) => FromRefines(first, fileSize);
    case Suffix(length) => SuffixRefines(length, fileSize);
  }

  /** Every grammatical single range of any magnitude is accepted exactly if the standard
      can satisfy it and it is supported, and then with exactly the standard's
      positions. Anything else falls back to a full response. */
  lemma RangeRefinesStandard(spec: RangeSpec, fileSize: nat)
    requires WellFormed(spec) && fileSize < U64
    ensures ParseRangeHeader(BYTES_PREFIX + Render(spec), fileSize) ==
            if Supported(spec, fileSize) then StandardWindow(spec, fileSize) else None
  {
    SplitsAtDash(Start(spec), End(spec), fileSize);
    BoundsRefineStandard(spec, fileSize);
  }

  /** An overlong last position is refused, not clamped: the standard serves it. */
  lemma OverlongLastIsRefused(first: string, last: string, fileSize: nat)
    requires IsNumber(first) && IsNumber(last) && fileSize < U64
    requires Value(first) < fileSize <= Value(last)
    ensures StandardWindow(FromTo(first, last), fileSize) == Some(Window(Value(first), fileSize - 1))
    ensures ParseRangeHeader(BYTES_PREFIX + Render(FromTo(first, last)), fileSize) == None
  {
    RangeRefinesStandard(FromTo(first, last), fileSize);
  }

  // ---- range forms and tiling -----------------------------------------------------

  /** The three ways to ask for the last `n` bytes, however the numbers are written. */
  predicate AsksForLast(spec: RangeSpec, n: nat, fileSize: nat)
    requires WellFormed(spec)
  {
    match spec
    case Suffix(length) => Value(length) == n
    case From(first) => Value(first) + n == fileSize
    case FromTo(first, last) => Value(first) + n == fileSize && Value(last) + 1 == fileSize
  }

  lemma StandardFormsAgree(spec: RangeSpec, n: nat, fileSize: nat)
    requires 0 < n <= fileSize < U64 && WellFormed(spec) && AsksForLast(spec, n, fileSize)
    ensures Supported(spec, fileSize) && StandardWindow(spec, fileSize) == Some(Window(fileSize - n, fileSize - 1))
  {
  }

  /** They all select the same window. */
  lemma RangeFormsAgree(spec: RangeSpec, n: nat, fileSize: nat)
    requires 0 < n <= fileSize < U64 && WellFormed(spec) && AsksForLast(spec, n, fileSize)
    ensures ParseRangeHeader(BYTES_PREFIX + Render(spec), fileSize) == Some(Window(fileSize - n, fileSize - 1))
  {
    StandardFormsAgree(spec, n, fileSize);
    RangeRefinesStandard(spec, fileSize);
  }

  /** The bytes of a window: the offset of line 447 and the length of line 454. */
  function Slice(file: Bytes, w: Window): Bytes
    requires w.start <= w.end < |file| < U64
  {
    file[w.start..w.start + ContentLength(w)]
  }

  lemma SliceIs(file: Bytes, w: Window)
    requires w.start <= w.end < |file| < U64
    ensures Slice(file, w) == file[w.start..w.end + 1]
  {
  }

  /** The bytes a header selects; an invalid range selects the whole file. */
  function Selected(file: Bytes, header: string): Bytes
    requires |file| < U64
  {
    var w := ParseRangeHeader(header, |file|);
    if w.None? then file else Slice(file, w.value)
  }

  /** Header text for "first-last". */
  function FromToHeader(first: string, last: string): string {
    BYTES_PREFIX + Render(FromTo(first, last))
  }

  /** Header text for "first-". */
  function FromHeader(first: string): string {
    BYTES_PREFIX + Render(From(first))
  }

  /** The headers, in any spelling, parse to these windows of a file. */
  predicate ParseTo(headers: seq<string>, windows: seq<Window>, fileSize: nat)
    requires fileSize < U64
  {
    && |headers| == |windows|
    && forall i | 0 <= i < |headers| :: ParseRangeHeader(headers[i], fileSize) == Some(windows[i])
  }

  /** Each window starts where the one before it ended. */
  predicate Consecutive(windows: seq<Window>) {
    forall i, j | 0 <= i && j == i + 1 < |windows| :: windows[i].end + 1 == windows[j].start
  }

  /** The bytes of the ranges, fetched one header at a time. */
  function Pieces(file: Bytes, headers: seq<string>): Bytes
    requires |file| < U64
  {
    if headers == [] then [] else Selected(file, headers[0]) + Pieces(file, headers[1..])
  }

  predicate AllInside(windows: seq<Window>, fileSize: nat) {
    forall i | 0 <= i < |windows| :: windows[i].start <= windows[i].end < fileSize
  }

  /** The windows of a file, one after another. */
  function Cover(file: Bytes, windows: seq<Window>): Bytes
    requires |file| < U64 && AllInside(windows, |file|)
  {
    if windows == [] then [] else Slice(file, windows[0]) + Cover(file, windows[1..])
  }

  /** What dropping the first window leaves. */
  lemma RestIsConsecutive(windows: seq<Window>, fileSize: nat)
    requires AllInside(windows, fileSize) && Consecutive(windows) && |windows| > 1
    ensures AllInside(windows[1..], fileSize) && Consecutive(windows[1..])
    ensures windows[1..][0].start == windows[0].end + 1
    ensures windows[1..][|windows| - 2] == windows[|windows| - 1]
  {
    var rest := windows[1..];
    forall i, j | 0 <= i && j == i + 1 < |rest| ensures rest[i].end + 1 == rest[j].start {
      assert rest[i] == windows[i + 1] && rest[j] == windows[j + 1];
    }
    assert rest[0] == windows[1];
  }

  lemma FirstJoins(file: Bytes, w: Window, rest: Bytes, end: nat)
    requires w.start <= w.end < end <= |file| < U64 && rest == file[w.end + 1..end]
    ensures Slice(file, w) + rest == file[w.start..end]
  {
    SliceIs(file, w);
    SlicesJoin(file, w.start, w.end + 1, end);
  }

  lemma {:induction false} CoverJoins(file: Bytes, windows: seq<Window>)
    requires |file| < U64 && AllInside(windows, |file|)
    requires windows != [] && Consecutive(windows)
    ensures windows[0].start <= windows[|windows| - 1].end
    ensures Cover(file, windows) == file[windows[0].start..windows[|windows| - 1].end + 1]
  {
    var w, rest := windows[0], windows[1..];
    if rest == [] {
      assert Cover(file, rest) == [];
      FirstJoins(file, w, [], w.end + 1);
    } else {
      RestIsConsecutive(windows, |file|);
      CoverJoins(file, rest);
      FirstJoins(file, w, Cover(file, rest), windows[|windows| - 1].end + 1);
    }
  }

  lemma {:induction false} PiecesCover(file: Bytes, headers: seq<string>, windows: seq<Window>)
    requires |file| < U64 && ParseTo(headers, windows, |file|)
    ensures AllInside(windows, |file|)
    ensures Pieces(file, headers) == Cover(file, windows)
  {
    if headers != [] {
      PiecesCover(file, headers[1..], windows[1..]);
      assert forall i | 0 < i < |windows| :: windows[i] == windows[1..][i - 1];
    }
  }

  /** Consecutive ranges, fetched in turn, join to the part of the file they span. */
  lemma PiecesJoin(file: Bytes, headers: seq<string>, windows: seq<Window>)
    requires |file| < U64 && headers != [] && ParseTo(headers, windows, |file|) && Consecutive(windows)
    ensures windows[0].start <= windows[|windows| - 1].end < |file|
    ensures Pieces(file, headers) == file[windows[0].start..windows[|windows| - 1].end + 1]
  {
    PiecesCover(file, headers, windows);
    CoverJoins(file, windows);
  }

  lemma HeaderSelects(file: Bytes, header: string, w: Window)
    requires |file| < U64 && ParseRangeHeader(header, |file|) == Some(w)
    ensures w.start <= w.end < |file| && Selected(file, header) == file[w.start..w.end + 1]
  {
    SliceIs(file, w);
  }

  lemma SlicesJoin(file: Bytes, a: nat, b: nat, c: nat)
    requires a <= b <= c <= |file|
    ensures file[a..b] + file[b..c] == file[a..c]
  {
  }

  /** In particular a partition of [0, size) joins to the whole file. */
  lemma PartitionIsWholeFile(file: Bytes, headers: seq<string>, windows: seq<Window>)
    requires |file| < U64 && headers != [] && ParseTo(headers, windows, |file|) && Consecutive(windows)
    requires windows[0].start == 0 && windows[|windows| - 1].end + 1 == |file|
    ensures Pieces(file, headers) == file
  {
    PiecesJoin(file, headers, windows);
  }

  lemma FromWindow(k: string, fileSize: nat)
    requires IsNumber(k) && Value(k) < fileSize < U64
    ensures ParseRangeHeader(FromHeader(k), fileSize) == Some(Window(Value(k), fileSize - 1))
  {
    RangeRefinesStandard(From(k), fileSize);
  }

  lemma TakeAndRest(file: Bytes, held: nat)
    requires held <= |file|
    ensures file[..held] + file[held..|file|] == file
  {
  }

  lemma RestCompletes(file: Bytes, header: string, held: nat, size: nat)
    requires held < |file| == size < U64 && ParseRangeHeader(header, size) == Some(Window(held, size - 1))
    ensures file[..held] + Selected(file, header) == file
  {
    assert Selected(file, header) == file[held..size] by { HeaderSelects(file, header, Window(held, size - 1)); }
    TakeAndRest(file, held);
  }

  /** A client holding the first `k` bytes gets exactly the rest. */
  lemma ResumeCompletes(file: Bytes, k: string)
    requires IsNumber(k) && Value(k) < |file| < U64
    ensures file[..Value(k)] + Selected(file, FromHeader(k)) == file
  {
    var header, held, size := FromHeader(k), Value(k), |file|;
    assert ParseRangeHeader(header, size) == Some(Window(held, size - 1)) by { FromWindow(k, size); }
    RestCompletes(file, header, held, size);
  }

  /** The positions printed on a Content-Range line, sent back as a range, select the
      same window again. */
  lemma ContentRangeRoundTrip(header: string, fileSize: nat)
    requires fileSize < U64 && ParseRangeHeader(header, fileSize).Some?
    ensures var w := ParseRangeHeader(header, fileSize).value;
            ParseRangeHeader(FromToHeader(Print(w.start), Print(w.end)), fileSize) == Some(w)
  {
    var w := ParseRangeHeader(header, fileSize).value;
    PrintedFromTo(w.start, w.end, fileSize);
  }

  lemma PrintedFromTo(first: nat, last: nat, fileSize: nat)
    requires first <= last < fileSize < U64
    ensures ParseRangeHeader(FromToHeader(Print(first), Print(last)), fileSize) == Some(Window(first, last))
  {
    ValueOfPrint(first);
    ValueOfPrint(last);
    RangeRefinesStandard(FromTo(Print(first), Print(last)), fileSize);
  }
}
