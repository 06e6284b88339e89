/** Range headers as text: exactly which headers are accepted, what becomes of every
    header that section 2.1 of RFC 7233 allows, and which accepted headers it does not. */
module RangeHeaders {
  import opened Wrappers
  import opened Strings
  import opened Decimals
  import opened ByteRanges

  // ---- every header text --------------------------------------------------------------

  /** The header is "bytes=", `a`, the first dash, and `b`. */
  predicate SplitsAt(header: string, a: string, b: string) {
    header == BYTES_PREFIX + (a + "-" + b) && '-' !in a
  }

  /** The texts around the dash spell the window `w`, which lies in the file. */
  ghost predicate Selects(a: string, b: string, fileSize: nat, w: Window) {
    && w.start <= w.end < fileSize
    && (a != "" ==> Denotes(a, w.start))
    && (a != "" && b != "" ==> Denotes(b, w.end))
    && (a == "" || b == "" ==> w.end == fileSize - 1)
    && (a == "" ==> exists n: nat :: Denotes(b, n) && w.start == if n > fileSize then 0 else fileSize - n)
  }

  lemma SuffixIff(b: string, fileSize: nat, w: Window)
    requires fileSize < U64
    ensures Validated(Bounds("", b, fileSize), fileSize) == Some(w) <==> Selects("", b, fileSize, w)
  {
    var n := Stoull(b);
    if n.Some? { StoullIff(b, n.value); }
    if Selects("", b, fileSize, w) {
      var k: nat :| Denotes(b, k) && w.start == if k > fileSize then 0 else fileSize - k;
      StoullIff(b, k);
    }
  }

  lemma FromIff(a: string, fileSize: nat, w: Window)
    requires fileSize < U64 && a != ""
    ensures Validated(Bounds(a, "", fileSize), fileSize) == Some(w) <==> Selects(a, "", fileSize, w)
  {
    StoullIff(a, w.start);
  }

  lemma FromToIff(a: string, b: string, fileSize: nat, w: Window)
    requires fileSize < U64 && a != "" && b != ""
    ensures Validated(Bounds(a, b, fileSize), fileSize) == Some(w) <==> Selects(a, b, fileSize, w)
  {
    StoullIff(a, w.start);
    StoullIff(b, w.end);
  }

  lemma SplitHeaderIff(header: string, a: string, b: string, fileSize: nat, w: Window)
    requires fileSize < U64 && SplitsAt(header, a, b)
    ensures ParseRangeHeader(header, fileSize) == Some(w) <==> Selects(a, b, fileSize, w)
  {
    SplitsAtDash(a, b, fileSize);
    if a == "" {
      SuffixIff(b, fileSize, w);
    } else if b == "" {
      FromIff(a, fileSize, w);
    } else {
      FromToIff(a, b, fileSize, w);
    }
  }

  lemma DashFound(spec: string) returns (a: string, b: string)
    requires Find(spec, "-", 0).Some?
    ensures spec == a + "-" + b && '-' !in a
  {
    var dash := Find(spec, "-", 0).value;
    FindCharSplits(spec, '-', 0);
    a, b := spec[..dash], spec[dash + 1..];
    assert spec[0..dash] == a;
    assert spec == a + [spec[dash]] + b;
  }

  lemma AcceptedHeaderSplits(header: string, fileSize: nat) returns (a: string, b: string)
    requires fileSize < U64 && ParseRangeHeader(header, fileSize).Some?
    ensures SplitsAt(header, a, b)
  {
    var spec := header[|BYTES_PREFIX|..];
    a, b := DashFound(spec);
    assert header == BYTES_PREFIX + spec;
  }

  /** For every header text: it is accepted, as the window `w`, exactly if the texts
      around its first dash spell `w`. */
  lemma HeaderIff(header: string, fileSize: nat, w: Window)
    requires fileSize < U64
    ensures ParseRangeHeader(header, fileSize) == Some(w) <==>
            exists a, b :: SplitsAt(header, a, b) && Selects(a, b, fileSize, w)
  {
    if ParseRangeHeader(header, fileSize) == Some(w) {
      var a, b := AcceptedHeaderSplits(header, fileSize);
      SplitHeaderIff(header, a, b, fileSize, w);
    }
    if a, b :| SplitsAt(header, a, b) && Selects(a, b, fileSize, w) {
      SplitHeaderIff(header, a, b, fileSize, w);
    }
  }

  // ---- every header of the grammar ------------------------------------------------------

  predicate IsOws(s: string) {
    forall i | 0 <= i < |s| :: s[i] == ' ' || s[i] == '\t'
  }

  /** What may follow the first range of a list: a comma with white space before it, and
      then nothing, or white space and another range. */
  datatype Element =
    | Gap(before: string)
    | Next(before: string, after: string, spec: RangeSpec)

  /** A byte-ranges-specifier: the unit, empty elements, a range, and the rest of the list. */
  datatype RangeSet = RangeSet(unit: string, lead: string, first: RangeSpec, more: seq<Element>)

  function RenderMore(more: seq<Element>): string {
    if more == [] then ""
    else
      var range := if more[0].Next? then more[0].after + Render(more[0].spec) else "";
      more[0].before + ("," + (range + RenderMore(more[1..])))
  }

  function RenderSet(ranges: RangeSet): string {
    ranges.unit + "=" + (ranges.lead + Render(ranges.first) + RenderMore(ranges.more))
  }

  /** The grammar's literals are case-insensitive. */
  predicate IsUnit(unit: string) {
    && |unit| == 5
    && unit[0] in "bB" && unit[1] in "yY" && unit[2] in "tT" && unit[3] in "eE" && unit[4] in "sS"
  }

  /** Commas, each with white space after it. */
  predicate IsLead(lead: string) {
    && (lead != "" ==> lead[0] == ',')
    && forall i | 0 <= i < |lead| :: lead[i] in ", \t"
  }

  predicate WellFormedElement(e: Element) {
    IsOws(e.before) && (e.Next? ==> IsOws(e.after) && WellFormed(e.spec))
  }

  predicate WellFormedMore(more: seq<Element>) {
    forall i | 0 <= i < |more| :: WellFormedElement(more[i])
  }

  predicate WellFormedSet(ranges: RangeSet) {
    && IsUnit(ranges.unit) && IsLead(ranges.lead)
    && WellFormed(ranges.first) && WellFormedMore(ranges.more)
  }

  /** The rest of a list: white space, a comma, anything. */
  predicate IsListTail(tail: string, ows: string, rest: string) {
    IsOws(ows) && tail == ows + ("," + rest)
  }

  lemma ListTailIsNoNumber(tail: string, ows: string, rest: string)
    requires IsListTail(tail, ows, rest)
    ensures tail != "" && !IsDigit(tail[0]) && Stoull(tail) == None
  {
    assert tail == ows + [','] + rest;
    StoullThrows(ows, ',', rest);
  }

  lemma StartIsNumber(spec: RangeSpec)
    requires WellFormed(spec)
    ensures Start(spec) != "" ==> IsNumber(Start(spec))
    ensures End(spec) != "" ==> IsNumber(End(spec))
    ensures '-' !in Start(spec)
    ensures Start(spec) == "" <==> spec.Suffix?
    ensures End(spec) == "" <==> spec.From?
  {
  }

  /** Only what stoull reads of the text after the dash matters. */
  lemma SameEnd(a: string, b: string, c: string, fileSize: nat)
    requires fileSize < U64 && b != "" && c != "" && Stoull(b) == Stoull(c)
    ensures Bounds(a, b, fileSize) == Bounds(a, c, fileSize)
  {
  }

  lemma TailAfterDash(spec: RangeSpec, tail: string, ows: string, rest: string, fileSize: nat)
    requires WellFormed(spec) && fileSize < U64 && IsListTail(tail, ows, rest)
    ensures Bounds(Start(spec), End(spec) + tail, fileSize) ==
            if spec.From? then None else Bounds(Start(spec), End(spec), fileSize)
  {
    ListTailIsNoNumber(tail, ows, rest);
    StartIsNumber(spec);
    if spec.From? {
      assert End(spec) + tail == tail;
    } else {
      StoullReadsNumber(End(spec), tail);
      StoullOfNumber(End(spec));
      SameEnd(Start(spec), End(spec) + tail, End(spec), fileSize);
    }
  }

  lemma RenderWithTail(spec: RangeSpec, tail: string)
    ensures Render(spec) + tail == Start(spec) + "-" + (End(spec) + tail)
  {
  }

  /** Of a list of ranges the first is served and the others are ignored; but a list
      whose first range has no last position is refused altogether. */
  lemma ListIsItsFirstRange(spec: RangeSpec, ows: string, rest: string, fileSize: nat)
    requires WellFormed(spec) && IsOws(ows) && fileSize < U64
    ensures ParseRangeHeader(BYTES_PREFIX + (Render(spec) + (ows + ("," + rest))), fileSize) ==
            if spec.From? then None else ParseRangeHeader(BYTES_PREFIX + Render(spec), fileSize)
  {
    var tail := ows + ("," + rest);
    StartIsNumber(spec);
    RenderWithTail(spec, tail);
    SplitsAtDash(Start(spec), End(spec) + tail, fileSize);
    SplitsAtDash(Start(spec), End(spec), fileSize);
    TailAfterDash(spec, tail, ows, rest, fileSize);
  }

  lemma CommaIsNoNumber(a: string)
    requires a != "" && a[0] == ','
    ensures Stoull(a) == None
  {
    var none := "";
    assert none + [','] + a[1..] == a;
    StoullThrows(none, ',', a[1..]);
  }

  lemma CommaIsNoBound(a: string, b: string, fileSize: nat)
    requires fileSize < U64 && a != "" && a[0] == ','
    ensures Validated(Bounds(a, b, fileSize), fileSize) == None
  {
    CommaIsNoNumber(a);
  }

  lemma LeadingCommaIsRefused(lead: string, spec: RangeSpec, tail: string, fileSize: nat)
    requires WellFormed(spec) && IsLead(lead) && lead != "" && fileSize < U64
    ensures ParseRangeHeader(BYTES_PREFIX + (lead + Render(spec) + tail), fileSize) == None
  {
    var a, b := lead + Start(spec), End(spec) + tail;
    assert '-' !in a by { StartIsNumber(spec); }
    assert lead + Render(spec) + tail == a + "-" + b;
    SplitsAtDash(a, b, fileSize);
    CommaIsNoBound(a, b, fileSize);
  }

  lemma PrefixIsUnit(unit: string, rest: string)
    requires |unit| == 5 && BYTES_PREFIX <= unit + "=" + rest
    ensures unit == "bytes"
  {
    var header, bytes := unit + "=" + rest, "bytes";
    assert forall i | 0 <= i < 5 :: unit[i] == header[i] == BYTES_PREFIX[i] == bytes[i];
  }

  lemma OtherUnitIsRefused(unit: string, rest: string, fileSize: nat)
    requires IsUnit(unit) && unit != "bytes" && fileSize < U64
    ensures ParseRangeHeader(unit + "=" + rest, fileSize) == None
  {
    if BYTES_PREFIX <= unit + "=" + rest { PrefixIsUnit(unit, rest); }
  }

  lemma MoreIsListTail(more: seq<Element>) returns (ows: string, rest: string)
    requires WellFormedMore(more) && more != []
    ensures IsListTail(RenderMore(more), ows, rest)
  {
    ows := more[0].before;
    rest := (if more[0].Next? then more[0].after + Render(more[0].spec) else "") + RenderMore(more[1..]);
  }

  /** What the program serves of a whole byte-ranges-specifier. */
  predicate SetSupported(ranges: RangeSet, fileSize: nat)
    requires WellFormedSet(ranges)
  {
    && ranges.unit == "bytes" && ranges.lead == ""
    && (ranges.first.From? ==> ranges.more == [])
    && Supported(ranges.first, fileSize)
  }

  lemma PlainSetRefines(first: RangeSpec, more: seq<Element>, fileSize: nat)
    requires WellFormed(first) && WellFormedMore(more) && fileSize < U64
    ensures ParseRangeHeader(BYTES_PREFIX + (Render(first) + RenderMore(more)), fileSize) ==
            if Supported(first, fileSize) && (first.From? ==> more == []) then StandardWindow(first, fileSize) else None
  {
    RangeRefinesStandard(first, fileSize);
    if more == [] {
      assert Render(first) + RenderMore(more) == Render(first);
    } else {
      var ows, rest := MoreIsListTail(more);
      ListIsItsFirstRange(first, ows, rest, fileSize);
    }
  }

  /** Every header that section 2.1 allows, lists and empty elements included, is
      accepted exactly if it is supported and the standard can satisfy its first range,
      and then with exactly that range's positions. */
  lemma SetRefinesStandard(ranges: RangeSet, fileSize: nat)
    requires WellFormedSet(ranges) && fileSize < U64
    ensures ParseRangeHeader(RenderSet(ranges), fileSize) ==
            if SetSupported(ranges, fileSize) then StandardWindow(ranges.first, fileSize) else None
  {
    var tail := RenderMore(ranges.more);
    if ranges.unit != "bytes" {
      OtherUnitIsRefused(ranges.unit, ranges.lead + Render(ranges.first) + tail, fileSize);
    } else {
      UnitIsPrefix(ranges);
      if ranges.lead != "" {
        LeadingCommaIsRefused(ranges.lead, ranges.first, tail, fileSize);
      } else {
        PlainSetRefines(ranges.first, ranges.more, fileSize);
      }
    }
  }

  lemma UnitIsPrefix(ranges: RangeSet)
    requires ranges.unit == "bytes"
    ensures RenderSet(ranges) == BYTES_PREFIX + (ranges.lead + Render(ranges.first) + RenderMore(ranges.more))
    ensures ranges.lead == "" ==> RenderSet(ranges) == BYTES_PREFIX + (Render(ranges.first) + RenderMore(ranges.more))
  {
    assert "bytes" + "=" == BYTES_PREFIX;
    if ranges.lead == "" { assert ranges.lead + Render(ranges.first) == Render(ranges.first); }
  }

  // ---- accepted headers outside the grammar ---------------------------------------------

  ghost predicate InGrammar(header: string) {
    exists ranges :: WellFormedSet(ranges) && header == RenderSet(ranges)
  }

  /** `b` is digits and the rest of a list. */
  ghost predicate DigitsThenList(b: string) {
    exists digits, more :: AllDigits(digits) && WellFormedMore(more) && b == digits + RenderMore(more)
  }

  /** No white space, sign or stray text around the numbers. */
  ghost predicate Clean(a: string, b: string) {
    AllDigits(a) && DigitsThenList(b)
  }

  lemma SplitIsUnique(a: string, b: string, c: string, d: string)
    requires a + "-" + b == c + "-" + d && '-' !in a && '-' !in c
    ensures a == c && b == d
  {
    FindCharAfter(a, '-', b);
    FindCharAfter(c, '-', d);
    assert (a + "-" + b)[..|a|] == a && (c + "-" + d)[..|c|] == c;
    assert (a + "-" + b)[|a| + 1..] == b && (c + "-" + d)[|c| + 1..] == d;
  }

  lemma SamePrefix(header: string, x: string, y: string)
    requires header == BYTES_PREFIX + x && header == BYTES_PREFIX + y
    ensures x == y
  {
    assert header[|BYTES_PREFIX|..] == x;
    assert header[|BYTES_PREFIX|..] == y;
  }

  lemma PlainSetSplits(header: string, a: string, b: string, ranges: RangeSet)
    requires SplitsAt(header, a, b) && WellFormedSet(ranges) && header == RenderSet(ranges)
    requires ranges.unit == "bytes" && ranges.lead == ""
    ensures a == Start(ranges.first) && b == End(ranges.first) + RenderMore(ranges.more)
  {
    var first, tail := ranges.first, RenderMore(ranges.more);
    var c, d := Start(first), End(first) + tail;
    UnitIsPrefix(ranges);
    RenderWithTail(first, tail);
    StartIsNumber(first);
    SamePrefix(header, a + "-" + b, c + "-" + d);
    SplitIsUnique(a, b, c, d);
  }

  lemma PlainSetIsClean(header: string, a: string, b: string, ranges: RangeSet)
    requires SplitsAt(header, a, b) && WellFormedSet(ranges) && header == RenderSet(ranges)
    requires ranges.unit == "bytes" && ranges.lead == ""
    ensures Clean(a, b)
  {
    var digits, more := End(ranges.first), ranges.more;
    assert a == Start(ranges.first) && b == digits + RenderMore(more) by { PlainSetSplits(header, a, b, ranges); }
    StartIsNumber(ranges.first);
    assert AllDigits(digits) && WellFormedMore(more) && b == digits + RenderMore(more);
  }

  /** The single range that clean texts around a dash spell. */
  function SpecOf(a: string, digits: string): RangeSpec {
    if a == "" then Suffix(digits) else if digits == "" then From(a) else FromTo(a, digits)
  }

  lemma CleanIsGrammar(header: string, a: string, b: string, digits: string, more: seq<Element>)
    requires SplitsAt(header, a, b) && AllDigits(a) && AllDigits(digits) && (a == "" ==> digits != "")
    requires WellFormedMore(more) && b == digits + RenderMore(more)
    ensures InGrammar(header)
  {
    var spec := SpecOf(a, digits);
    var ranges := RangeSet("bytes", "", spec, more);
    assert WellFormed(spec) && Start(spec) == a && End(spec) == digits;
    UnitIsPrefix(ranges);
    RenderWithTail(spec, RenderMore(more));
    assert WellFormedSet(ranges);
  }

  lemma AcceptedSuffixHasDigits(b: string, digits: string, more: seq<Element>, fileSize: nat, w: Window)
    requires Selects("", b, fileSize, w) && WellFormedMore(more) && b == digits + RenderMore(more)
    ensures digits != ""
  {
    var n :| Denotes(b, n);
    StoullIff(b, n);
    if digits == "" {
      assert b == RenderMore(more);
      if more != [] {
        var ows, rest := MoreIsListTail(more);
        ListTailIsNoNumber(b, ows, rest);
      }
    }
  }

  /** An accepted header is in the grammar exactly if its numbers stand alone. */
  lemma AcceptedIsGrammaticalIff(header: string, a: string, b: string, fileSize: nat)
    requires SplitsAt(header, a, b) && fileSize < U64 && ParseRangeHeader(header, fileSize).Some?
    ensures InGrammar(header) <==> Clean(a, b)
  {
    if ranges :| WellFormedSet(ranges) && header == RenderSet(ranges) {
      SetRefinesStandard(ranges, fileSize);
      PlainSetIsClean(header, a, b, ranges);
    }
    if Clean(a, b) {
      var digits, more :| AllDigits(digits) && WellFormedMore(more) && b == digits + RenderMore(more);
      if a == "" {
        var w := ParseRangeHeader(header, fileSize).value;
        SplitHeaderIff(header, a, b, fileSize, w);
        AcceptedSuffixHasDigits(b, digits, more, fileSize, w);
      }
      CleanIsGrammar(header, a, b, digits, more);
    }
  }

  /** For every header text: it is served as the window `w` although section 2.1 does
      not allow it exactly if the texts around its first dash spell `w` with spaces, a
      sign or stray text. */
  lemma ServedOutsideGrammarIff(header: string, fileSize: nat, w: Window)
    requires fileSize < U64
    ensures ParseRangeHeader(header, fileSize) == Some(w) && !InGrammar(header) <==>
            exists a, b :: SplitsAt(header, a, b) && Selects(a, b, fileSize, w) && !Clean(a, b)
  {
    if ParseRangeHeader(header, fileSize) == Some(w) {
      var a, b := AcceptedHeaderSplits(header, fileSize);
      SplitHeaderIff(header, a, b, fileSize, w);
      AcceptedIsGrammaticalIff(header, a, b, fileSize);
    }
    if a, b :| SplitsAt(header, a, b) && Selects(a, b, fileSize, w) && !Clean(a, b) {
      SplitHeaderIff(header, a, b, fileSize, w);
      AcceptedIsGrammaticalIff(header, a, b, fileSize);
    }
  }

  /** The window that a suffix of `n` bytes selects. */
  function LastBytes(n: nat, fileSize: nat): Option<Window> {
    if n == 0 || fileSize == 0 then None
    else Some(Window(if n > fileSize then 0 else fileSize - n, fileSize - 1))
  }

  lemma SuffixWindow(suffix: string, fileSize: nat)
    requires fileSize < U64
    ensures Validated(Bounds("", suffix, fileSize), fileSize) ==
            if Stoull(suffix).None? then None else LastBytes(Stoull(suffix).value, fileSize)
  {
  }

  /** In particular a negative suffix wraps around to a suffix of 2^64 - n bytes, so
      unless it is 0 or overflows it is served, almost always as the whole file. */
  lemma NegativeSuffixWraps(length: string, fileSize: nat)
    requires IsNumber(length) && fileSize < U64
    ensures ParseRangeHeader(BYTES_PREFIX + ("" + "-" + ("-" + length)), fileSize) ==
            if Value(length) == 0 || Value(length) >= U64 then None else LastBytes(U64 - Value(length), fileSize)
  {
    var none, suffix := "", "-" + length;
    SplitsAtDash(none, suffix, fileSize);
    SuffixWindow(suffix, fileSize);
    StoullWrapsNegative(length);
  }
}
