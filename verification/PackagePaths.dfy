/** The Debian path parser: four competing file name formats told apart by overlapping
    searches, and the printer it undoes. */
module PackagePaths {
  import opened Wrappers
  import opened Strings

  datatype PackageInfo = PackageInfo(
    name: string,
    version: string,
    component: string,
    extension: string,
    architecture: string)

  datatype Format = Orig | Dsc | Tar | Binary

  const POOL: string := "/debian/pool/"

  /** std::string::substr(i, n), and the part std::string::compare(i, n, _) looks at. */
  function Substr(s: string, i: nat, n: nat): string
    requires i <= |s|
  {
    if i + n <= |s| then s[i..i + n] else s[i..]
  }

  function LastDot(s: string): (d: Option<nat>)
    ensures d.Some? ==> d.value < |s|
  {
    RFind(s, ".", |s|)
  }

  predicate IsCompressed(s: string, dot: nat)
    requires dot <= |s|
  {
    Substr(s, dot, 3) == ".gz" || Substr(s, dot, 3) == ".xz"
  }

  /** Where a file name is cut: after the name, the version and the architecture. A
      source file has no architecture, so `version` and `arch` coincide. */
  datatype Cuts = Cuts(format: Format, name: nat, version: nat, arch: nat)

  /** Lines 30-78: which branch takes a file name, and where it cuts it. */
  function Cut(f: string): (r: Option<Cuts>)
    ensures r.Some? ==> 0 < r.value.name < r.value.version <= r.value.arch < |f|
    ensures r.Some? && r.value.format == Binary ==> r.value.version < r.value.arch
    ensures r.Some? && r.value.format != Binary ==> r.value.version == r.value.arch
  {
    var underscore, lastDot := Find(f, "_", 0), LastDot(f);
    if underscore.None? || underscore.value == 0 then None
    else if lastDot.None? || lastDot.value <= underscore.value then None
    else
      var u, d := underscore.value, lastDot.value;
      var orig, tar := Find(f, ".orig", 0), RFind(f, ".tar", d);
      if orig.Some? && orig.value > u then Some(Cuts(Orig, u, orig.value, orig.value))
      else if Substr(f, d, 4) == ".dsc" then Some(Cuts(Dsc, u, d, d))
      else if IsCompressed(f, d) && tar.Some? && tar.value > u then Some(Cuts(Tar, u, tar.value, tar.value))
      else
        var second := Find(f, "_", u + 1);
        if second.None? || second.value >= d then None else Some(Cuts(Binary, u, second.value, d))
  }

  /** The substrings between the cuts. */
  function Fields(component: string, f: string, c: Cuts): PackageInfo
    requires c.name < c.version <= c.arch <= |f| && (c.format == Binary ==> c.version < c.arch)
  {
    PackageInfo(
      f[..c.name],
      f[c.name + 1..c.version],
      component,
      if c.format == Dsc then ".dsc" else f[c.arch..],
      if c.format == Binary then f[c.version + 1..c.arch] else "source")
  }

  function ParseFile(component: string, f: string): Option<(Format, PackageInfo)> {
    var c := Cut(f);
    if c.None? then None else Some((c.value.format, Fields(component, f, c.value)))
  }

  predicate IsComponent(c: string) {
    c == "main" || c == "contrib" || c == "non-free"
  }

  /** The result of parsing a path, and the branch that found it. */
  function ParseAs(path: string): Option<(Format, PackageInfo)> {
    if !(POOL <= path) then None
    else
      var end := Find(path, "/", |POOL|);
      if end.None? then None
      else
        var component := path[|POOL|..end.value];
        if !IsComponent(component) then None
        else
          var lastSlash := RFind(path, "/", |path|);
          if lastSlash.None? then None else ParseFile(component, path[lastSlash.value + 1..])
  }

  /** PackageParser::parse */
  function Parse(path: string): Option<PackageInfo> {
    var r := ParseAs(path);
    if r.Some? then Some(r.value.1) else None
  }

  // ---- printing -----------------------------------------------------------------

  function FileName(format: Format, info: PackageInfo): string {
    if format == Binary then info.name + "_" + info.version + "_" + info.architecture + info.extension
    else info.name + "_" + info.version + info.extension
  }

  /** `dirs` is empty or ends in a slash. */
  function PathOf(component: string, dirs: string, file: string): string {
    POOL + component + "/" + dirs + file
  }

  predicate Contains(s: string, pat: string) {
    Find(s, pat, 0).Some?
  }

  /** After the name, an earlier branch would take the file for an .orig archive. */
  predicate LooksOrig(name: string, rest: string) {
    !Contains(name, ".orig") && Contains(rest, ".orig")
  }

  /** `s` ends in .gz or .xz at its last dot `d`, and `p` is the last ".tar" before. */
  predicate TarAt(s: string, d: nat, p: nat) {
    d <= |s| && LastDot(s) == Some(d) && IsCompressed(s, d) && RFind(s, ".tar", d) == Some(p)
  }

  /** An extension from its only reachable ".tar" on, ending in .gz or .xz. */
  predicate IsTarExtension(ext: string) {
    LastDot(ext).Some? && TarAt(ext, LastDot(ext).value, 0)
  }

  /** The side conditions that keep the four formats apart. */
  predicate WellFormed(format: Format, info: PackageInfo) {
    && info.name != "" && '_' !in info.name
    && match format
       case Orig =>
         && info.architecture == "source"
         && ".orig" <= info.extension && !Contains(info.name + "_" + info.version, ".orig")
       case Dsc =>
         && info.architecture == "source" && info.extension == ".dsc"
         && !LooksOrig(info.name, info.version + info.extension)
       case Tar =>
         && info.architecture == "source" && IsTarExtension(info.extension)
         && !LooksOrig(info.name, info.version + info.extension)
       case Binary =>
         && '_' !in info.version
         && info.extension != "" && info.extension[0] == '.' && '.' !in info.extension[1..]
         && !(".dsc" <= info.extension)
         && (IsCompressed(info.extension, 0) ==> !Contains(info.version + "_" + info.architecture, ".tar"))
         && !LooksOrig(info.name, info.version + "_" + info.architecture + info.extension)
  }

  // ---- nothing is lost ------------------------------------------------------------

  /** The cuts stand at the separators they are named for. */
  lemma CutsAtSeparators(f: string)
    requires Cut(f).Some?
    ensures var c := Cut(f).value;
            && f[c.name] == '_' && (c.format == Binary ==> f[c.version] == '_')
            && (c.format == Dsc ==> OccursAt(f, ".dsc", c.arch))
  {
    var c := Cut(f).value;
    CharGuard(f, '_', 0, c.name);
    if c.format == Binary { CharGuard(f, '_', c.name + 1, c.version); }
    if c.format == Dsc { SubstrOccurs(f, ".dsc", c.arch); }
  }

  lemma SubstrOccurs(f: string, pat: string, i: nat)
    requires i <= |f| && Substr(f, i, |pat|) == pat
    ensures OccursAt(f, pat, i)
  {
    assert forall k | 0 <= k < |pat| :: Substr(f, i, |pat|)[k] == pat[k];
  }

  lemma OccursIsSlice(s: string, pat: string, i: nat)
    requires OccursAt(s, pat, i)
    ensures s[i..i + |pat|] == pat
  {
    assert forall k | 0 <= k < |pat| :: s[i..i + |pat|][k] == pat[k];
  }

  /** Reassembling cut pieces, for any cuts at separators. */
  lemma PiecesReassemble(component: string, f: string, c: Cuts)
    requires c.name < c.version <= c.arch <= |f| && f[c.name] == '_'
    requires if c.format == Binary then c.version < c.arch && f[c.version] == '_' else c.version == c.arch
    ensures c.format != Dsc ==> FileName(c.format, Fields(component, f, c)) == f
    ensures c.format == Dsc ==> FileName(c.format, Fields(component, f, c)) == f[..c.arch] + ".dsc"
  {
    JoinAt(f, c.name, c.version);
    if c.format == Binary {
      JoinAt(f, c.version, c.arch);
    }
    assert f[..c.arch] + f[c.arch..] == f;
  }

  lemma JoinAt(f: string, i: nat, j: nat)
    requires i < j <= |f| && f[i] == '_'
    ensures f[..i] + "_" + f[i + 1..j] == f[..j]
  {
  }

  /** The fields reassemble the file name in every branch but .dsc, where they
      reassemble a prefix of it. */
  lemma FieldsReassemble(component: string, f: string)
    requires ParseFile(component, f).Some?
    ensures var (format, info) := ParseFile(component, f).value;
            && info.component == component
            && (format != Dsc ==> FileName(format, info) == f)
            && (format == Dsc ==> FileName(format, info) <= f)
  {
    var c := Cut(f).value;
    CutsAtSeparators(f);
    PiecesReassemble(component, f, c);
    if c.format == Dsc { DscIsPrefix(f, c.arch); }
  }

  lemma DscIsPrefix(f: string, d: nat)
    requires OccursAt(f, ".dsc", d)
    ensures f[..d] + ".dsc" <= f
  {
  }

  // ---- each search, decided by the pieces between the cuts --------------------------

  lemma OccursInSlice(s: string, a: nat, b: nat, pat: string, i: nat)
    requires a <= b <= |s|
    ensures OccursAt(s[a..b], pat, i) <==> i + |pat| <= b - a && OccursAt(s, pat, a + i)
  {
    var t := s[a..b];
    assert forall j | 0 <= j < b - a :: t[j] == s[a + j];
  }

  /** An occurrence that covers index `j` shows the character standing there. */
  lemma OccursCovers(s: string, pat: string, i: nat, j: nat)
    requires OccursAt(s, pat, i) && i <= j < i + |pat|
    ensures s[j] == pat[j - i]
  {
  }

  lemma ContainsIff(s: string, a: nat, b: nat, pat: string)
    requires a <= b <= |s|
    ensures Contains(s[a..b], pat) <==> exists i: nat :: a <= i && i + |pat| <= b && OccursAt(s, pat, i)
  {
    FindIsFirst(s[a..b], pat, 0);
    if Contains(s[a..b], pat) {
      OccursInSlice(s, a, b, pat, Find(s[a..b], pat, 0).value);
    }
    if i: nat :| a <= i && i + |pat| <= b && OccursAt(s, pat, i) {
      OccursInSlice(s, a, b, pat, i - a);
    }
  }

  /** find_last_of one character. */
  lemma LastCharGuard(s: string, c: char, i: nat)
    ensures RFind(s, [c], |s|) == Some(i) <==> i < |s| && s[i] == c && c !in s[i + 1..]
  {
    if RFind(s, [c], |s|) == Some(i) {
      RFindIsLast(s, [c], |s|);
      CharOccursAt(s, c, i);
      forall k: nat | i < k < |s| ensures s[k] != c {
        CharOccursAt(s, c, k);
      }
    } else if i < |s| && s[i] == c && c !in s[i + 1..] {
      CharOccursAt(s, c, i);
      forall k: nat | i < k <= |s| ensures !OccursAt(s, [c], k) {
        CharOccursAt(s, c, k);
        if k < |s| { assert s[k] == s[i + 1..][k - i - 1]; }
      }
      RFindIs(s, [c], |s|, i);
    }
  }

  /** The .orig branch is taken exactly if the name is free of ".orig" and the rest is not. */
  lemma OrigGuard(f: string, u: nat)
    requires u < |f| && f[u] == '_'
    ensures var orig := Find(f, ".orig", 0);
            orig.Some? && orig.value > u <==> LooksOrig(f[0..u], f[u + 1..|f|])
  {
    var orig := Find(f, ".orig", 0);
    FindIsFirst(f, ".orig", 0);
    ContainsIff(f, 0, u, ".orig");
    ContainsIff(f, u + 1, |f|, ".orig");
    forall i: nat | OccursAt(f, ".orig", i) ensures i + 5 <= u || u < i {
      if i <= u < i + 5 { OccursCovers(f, ".orig", i, u); }
    }
  }

  /** The first ".orig" is at `p` exactly if it starts there and nothing before has one. */
  lemma OrigStartsAt(f: string, p: nat)
    requires p <= |f|
    ensures Find(f, ".orig", 0) == Some(p) <==> OccursAt(f, ".orig", p) && !Contains(f[0..p], ".orig")
  {
    FindIsFirst(f, ".orig", 0);
    ContainsIff(f, 0, p, ".orig");
    if OccursAt(f, ".orig", p) && !Contains(f[0..p], ".orig") {
      forall i: nat | i < p ensures !OccursAt(f, ".orig", i) {
        if OccursAt(f, ".orig", i) && i + 5 > p {
          OccursCovers(f, ".orig", i, p);
          OccursCovers(f, ".orig", p, p);
        }
      }
      FindIs(f, ".orig", 0, p);
    }
  }

  /** Before a dot that opens no ".tar", the .tar branch looks in the body. */
  lemma TarGuard(f: string, u: nat, d: nat)
    requires u < d < |f| && f[d] == '.' && !OccursAt(f, ".tar", d)
    ensures var tar := RFind(f, ".tar", d);
            tar.Some? && tar.value > u <==> Contains(f[u + 1..d], ".tar")
  {
    RFindIsLast(f, ".tar", d);
    ContainsIff(f, u + 1, d, ".tar");
    forall i: nat | OccursAt(f, ".tar", i) && i < d ensures i + 4 <= d {
      if d < i + 4 { OccursCovers(f, ".tar", i, d); }
    }
  }

  /** Searching backwards in a suffix. */
  lemma RFindShift(f: string, p: nat, pat: string, from: nat, i: nat)
    requires p <= |f|
    ensures RFind(f[p..|f|], pat, from) == Some(i) <==> RFind(f, pat, p + from) == Some(p + i)
  {
    RFindIsLast(f[p..|f|], pat, from);
    RFindIsLast(f, pat, p + from);
    OccursInSlice(f, p, |f|, pat, i);
    if RFind(f[p..|f|], pat, from) == Some(i) {
      forall k: nat | p + i < k <= p + from ensures !OccursAt(f, pat, k) {
        OccursInSlice(f, p, |f|, pat, k - p);
      }
      RFindIs(f, pat, p + from, p + i);
    } else if RFind(f[p..|f|], pat, from).Some? {
      OccursInSlice(f, p, |f|, pat, RFind(f[p..|f|], pat, from).value);
    }
  }

  lemma SubstrShift(f: string, p: nat, i: nat, n: nat)
    requires p <= |f| && i <= |f| - p
    ensures Substr(f, p + i, n) == Substr(f[p..|f|], i, n)
  {
    SliceOfSlice(f, p, i, if p + i + n <= |f| then i + n else |f| - p);
  }

  lemma SliceOfSlice(f: string, p: nat, i: nat, j: nat)
    requires p <= |f| && i <= j <= |f| - p
    ensures f[p..|f|][i..j] == f[p + i..p + j]
  {
    var t := f[p..|f|];
    assert forall k | 0 <= k < |t| :: t[k] == f[p + k];
  }

  lemma TarAtShift(f: string, p: nat, d: nat)
    requires p <= |f|
    ensures TarAt(f[p..|f|], d, 0) <==> TarAt(f, p + d, p)
  {
    var ext := f[p..|f|];
    assert LastDot(ext) == Some(d) <==> LastDot(f) == Some(p + d) by { RFindShift(f, p, ".", |f| - p, d); }
    assert RFind(ext, ".tar", d) == Some(0) <==> RFind(f, ".tar", p + d) == Some(p) by {
      RFindShift(f, p, ".tar", d, 0);
    }
    if d <= |ext| { CompressedShift(f, p, d); }
  }

  lemma CompressedShift(f: string, p: nat, d: nat)
    requires p <= |f| && d <= |f| - p
    ensures IsCompressed(f[p..|f|], d) <==> IsCompressed(f, p + d)
  {
    SubstrShift(f, p, d, 3);
  }

  /** A .tar extension is recognised from its own text. */
  lemma TarExtensionIff(f: string, p: nat)
    requires p <= |f|
    ensures IsTarExtension(f[p..|f|]) <==> LastDot(f).Some? && TarAt(f, LastDot(f).value, p)
  {
    if IsTarExtension(f[p..|f|]) { TarAtShift(f, p, LastDot(f[p..|f|]).value); }
    if LastDot(f).Some? && TarAt(f, LastDot(f).value, p) { TarAtShift(f, p, LastDot(f).value - p); }
  }

  // ---- the branches -----------------------------------------------------------------

  /** The name and the last dot are found, and the .orig branch does not take `f`. */
  predicate PassesOrig(f: string, u: nat, d: nat) {
    var orig := Find(f, ".orig", 0);
    0 < u < d && Find(f, "_", 0) == Some(u) && LastDot(f) == Some(d) && !(orig.Some? && orig.value > u)
  }

  /** Neither the .dsc nor the .tar branch takes `f`. */
  predicate PassesSource(f: string, u: nat, d: nat)
    requires d <= |f|
  {
    var tar := RFind(f, ".tar", d);
    Substr(f, d, 4) != ".dsc" && !(IsCompressed(f, d) && tar.Some? && tar.value > u)
  }

  lemma CutIsOrig(f: string, u: nat, p: nat)
    requires u < p
    ensures Cut(f) == Some(Cuts(Orig, u, p, p)) <==>
            && 0 < u && Find(f, "_", 0) == Some(u) && Find(f, ".orig", 0) == Some(p)
            && LastDot(f).Some? && LastDot(f).value > u
  {
  }

  lemma CutIsDsc(f: string, u: nat, d: nat)
    requires u < d
    ensures Cut(f) == Some(Cuts(Dsc, u, d, d)) <==> PassesOrig(f, u, d) && d <= |f| && Substr(f, d, 4) == ".dsc"
  {
  }

  lemma CutIsTar(f: string, u: nat, p: nat, d: nat)
    requires u < p && LastDot(f) == Some(d)
    ensures Cut(f) == Some(Cuts(Tar, u, p, p)) <==> PassesOrig(f, u, d) && TarAt(f, d, p)
  {
    if d <= |f| && IsCompressed(f, d) { SecondCharTells(f, d); }
  }

  lemma CutIsBinary(f: string, u: nat, v: nat, d: nat)
    requires u < v < d <= |f|
    ensures Cut(f) == Some(Cuts(Binary, u, v, d)) <==>
            PassesOrig(f, u, d) && PassesSource(f, u, d) && Find(f, "_", u + 1) == Some(v)
  {
  }

  /** A compressed extension is neither .dsc nor .tar. */
  lemma SecondCharTells(f: string, d: nat)
    requires d <= |f| && IsCompressed(f, d)
    ensures Substr(f, d, 4) != ".dsc" && !OccursAt(f, ".tar", d)
  {
    assert Substr(f, d, 3)[1] == f[d + 1];
    if OccursAt(f, ".tar", d) { OccursCovers(f, ".tar", d, d + 1); }
  }

  /** The conditions on the pieces under which each branch takes a file name. */
  predicate WellCut(f: string, c: Cuts)
    requires c.name < c.version <= c.arch <= |f|
  {
    && 0 < c.name && f[c.name] == '_' && '_' !in f[0..c.name]
    && match c.format
       case Orig => OccursAt(f, ".orig", c.version) && !Contains(f[0..c.version], ".orig")
       case Dsc =>
         && c.arch < |f| && f[c.arch] == '.' && '.' !in f[c.arch + 1..] && Substr(f, c.arch, 4) == ".dsc"
         && !LooksOrig(f[0..c.name], f[c.name + 1..|f|])
       case Tar => IsTarExtension(f[c.version..|f|]) && !LooksOrig(f[0..c.name], f[c.name + 1..|f|])
       case Binary =>
         && c.arch < |f| && f[c.arch] == '.' && '.' !in f[c.arch + 1..]
         && f[c.version] == '_' && '_' !in f[c.name + 1..c.version]
         && Substr(f, c.arch, 4) != ".dsc"
         && (IsCompressed(f, c.arch) ==> !Contains(f[c.name + 1..c.arch], ".tar"))
         && !LooksOrig(f[0..c.name], f[c.name + 1..|f|])
  }

  lemma PassesOrigIff(f: string, u: nat, d: nat)
    requires u < d < |f|
    ensures PassesOrig(f, u, d) <==>
            && 0 < u && f[u] == '_' && '_' !in f[0..u]
            && f[d] == '.' && '.' !in f[d + 1..]
            && !LooksOrig(f[0..u], f[u + 1..|f|])
  {
    CharGuard(f, '_', 0, u);
    LastCharGuard(f, '.', d);
    if f[u] == '_' { OrigGuard(f, u); }
  }

  lemma OrigBranchIff(f: string, u: nat, p: nat)
    requires u < p <= |f|
    ensures Cut(f) == Some(Cuts(Orig, u, p, p)) <==> WellCut(f, Cuts(Orig, u, p, p))
  {
    CutIsOrig(f, u, p);
    CharGuard(f, '_', 0, u);
    OrigStartsAt(f, p);
    if OccursAt(f, ".orig", p) {
      OccursCovers(f, ".orig", p, p);
      CharOccursAt(f, '.', p);
      RFindIsLast(f, ".", |f|);
    }
  }

  lemma DscBranchIff(f: string, u: nat, d: nat)
    requires u < d <= |f|
    ensures Cut(f) == Some(Cuts(Dsc, u, d, d)) <==> WellCut(f, Cuts(Dsc, u, d, d))
  {
    CutIsDsc(f, u, d);
    if d < |f| { PassesOrigIff(f, u, d); }
  }

  lemma TarBranchIff(f: string, u: nat, p: nat)
    requires u < p <= |f|
    ensures Cut(f) == Some(Cuts(Tar, u, p, p)) <==> WellCut(f, Cuts(Tar, u, p, p))
  {
    TarExtensionIff(f, p);
    if LastDot(f).Some? {
      var d := LastDot(f).value;
      CutIsTar(f, u, p, d);
      LastCharGuard(f, '.', d);
      if u < d { PassesOrigIff(f, u, d); }
    }
  }

  lemma BinaryBranchIff(f: string, u: nat, v: nat, d: nat)
    requires u < v < d <= |f|
    ensures Cut(f) == Some(Cuts(Binary, u, v, d)) <==> WellCut(f, Cuts(Binary, u, v, d))
  {
    CutIsBinary(f, u, v, d);
    CharGuard(f, '_', u + 1, v);
    if d < |f| {
      PassesOrigIff(f, u, d);
      if IsCompressed(f, d) && f[d] == '.' {
        SecondCharTells(f, d);
        TarGuard(f, u, d);
      }
    }
  }

  /** For every file name and every cut: the parser cuts there exactly if the pieces
      satisfy the conditions of the branch. */
  lemma CutIff(f: string, c: Cuts)
    requires c.name < c.version <= c.arch <= |f|
    requires if c.format == Binary then c.version < c.arch else c.version == c.arch
    ensures Cut(f) == Some(c) <==> WellCut(f, c)
  {
    match c.format
    case Orig => OrigBranchIff(f, c.name, c.version);
    case Dsc => DscBranchIff(f, c.name, c.version);
    case Tar => TarBranchIff(f, c.name, c.version);
    case Binary => BinaryBranchIff(f, c.name, c.version, c.arch);
  }

  // ---- parsing undoes printing ------------------------------------------------------

  /** Where a printed file name should be cut. */
  function PrintedCuts(format: Format, info: PackageInfo): Cuts {
    var v := |info.name| + 1 + |info.version|;
    Cuts(format, |info.name|, v, if format == Binary then v + 1 + |info.architecture| else v)
  }

  /** What no search decides: a source file has no architecture, a .dsc one extension. */
  predicate FixedFields(format: Format, info: PackageInfo) {
    && (format != Binary ==> info.architecture == "source")
    && (format == Dsc ==> info.extension == ".dsc")
  }

  /** The pieces of a printed file name are the printed fields. */
  lemma PrintedPieces(format: Format, info: PackageInfo, f: string)
    requires f == FileName(format, info)
    ensures var c := PrintedCuts(format, info);
            && c.arch <= |f|
            && f[c.name] == '_' && (format == Binary ==> f[c.version] == '_')
            && f[0..c.name] == info.name && f[c.name + 1..c.version] == info.version
            && f[c.arch..|f|] == info.extension
            && (format == Binary ==> f[c.version + 1..c.arch] == info.architecture)
  {
  }

  /** And so are the longer pieces the conditions speak of. */
  lemma SourceRuns(format: Format, info: PackageInfo, f: string)
    requires format != Binary && f == FileName(format, info)
    ensures var c := PrintedCuts(format, info);
            && c.arch <= |f|
            && f[0..c.version] == info.name + "_" + info.version
            && f[c.name + 1..|f|] == info.version + info.extension
  {
  }

  lemma BinaryRuns(info: PackageInfo, f: string)
    requires f == FileName(Binary, info)
    ensures var c := PrintedCuts(Binary, info);
            && c.arch <= |f|
            && f[c.name + 1..c.arch] == info.version + "_" + info.architecture
            && f[c.name + 1..|f|] == info.version + "_" + info.architecture + info.extension
  {
  }

  lemma OrigPieces(info: PackageInfo, f: string)
    requires f == FileName(Orig, info) && FixedFields(Orig, info) && PrintedCuts(Orig, info).arch <= |f|
    ensures WellCut(f, PrintedCuts(Orig, info)) <==> WellFormed(Orig, info)
  {
    var c := PrintedCuts(Orig, info);
    PrintedPieces(Orig, info, f);
    SourceRuns(Orig, info, f);
    OccursInSlice(f, c.version, |f|, ".orig", 0);
    assert OccursAt(info.extension, ".orig", 0) <==> ".orig" <= info.extension;
  }

  lemma TarPieces(info: PackageInfo, f: string)
    requires f == FileName(Tar, info) && FixedFields(Tar, info) && PrintedCuts(Tar, info).arch <= |f|
    ensures WellCut(f, PrintedCuts(Tar, info)) <==> WellFormed(Tar, info)
  {
    PrintedPieces(Tar, info, f);
    SourceRuns(Tar, info, f);
  }

  lemma DscPieces(info: PackageInfo, f: string)
    requires f == FileName(Dsc, info) && FixedFields(Dsc, info) && PrintedCuts(Dsc, info).arch <= |f|
    ensures WellCut(f, PrintedCuts(Dsc, info)) <==> WellFormed(Dsc, info)
  {
    PrintedPieces(Dsc, info, f);
    SourceRuns(Dsc, info, f);
    DscConditions(f, PrintedCuts(Dsc, info), info);
  }

  /** The same for any file name with these pieces. */
  lemma DscConditions(f: string, c: Cuts, info: PackageInfo)
    requires c.format == Dsc && 0 <= c.name < c.version == c.arch <= |f| && FixedFields(Dsc, info)
    requires f[c.name] == '_' && f[0..c.name] == info.name && f[c.name + 1..|f|] == info.version + info.extension
    requires f[c.arch..|f|] == info.extension
    ensures WellCut(f, c) <==> WellFormed(Dsc, info)
  {
    DotOpens(f, c.arch, info.extension);
    SubstrShift(f, c.arch, 0, 4);
    DscExtension(info.extension);
  }

  lemma DscExtension(ext: string)
    requires ext == ".dsc"
    ensures ext[0] == '.' && '.' !in ext[1..] && Substr(ext, 0, 4) == ".dsc"
  {
  }

  lemma BinaryPieces(info: PackageInfo, f: string)
    requires f == FileName(Binary, info) && PrintedCuts(Binary, info).arch <= |f|
    ensures WellCut(f, PrintedCuts(Binary, info)) <==> WellFormed(Binary, info)
  {
    PrintedPieces(Binary, info, f);
    BinaryRuns(info, f);
    BinaryConditions(f, PrintedCuts(Binary, info), info);
  }

  lemma BinaryConditions(f: string, c: Cuts, info: PackageInfo)
    requires c.format == Binary && c.name < c.version < c.arch <= |f|
    requires f[c.name] == '_' && f[c.version] == '_'
    requires f[0..c.name] == info.name && f[c.name + 1..c.version] == info.version
    requires f[c.arch..|f|] == info.extension
    requires f[c.name + 1..c.arch] == info.version + "_" + info.architecture
    requires f[c.name + 1..|f|] == info.version + "_" + info.architecture + info.extension
    ensures WellCut(f, c) <==> WellFormed(Binary, info)
  {
    BinaryExtension(f, c.arch, info.extension);
  }

  lemma BinaryExtension(f: string, d: nat, ext: string)
    requires d <= |f| && f[d..|f|] == ext
    ensures d < |f| && f[d] == '.' && '.' !in f[d + 1..] && Substr(f, d, 4) != ".dsc" <==>
            ext != "" && ext[0] == '.' && '.' !in ext[1..] && !(".dsc" <= ext)
    ensures IsCompressed(f, d) <==> IsCompressed(ext, 0)
  {
    DotOpens(f, d, ext);
    SubstrShift(f, d, 0, 3);
    SubstrShift(f, d, 0, 4);
    assert Substr(ext, 0, 4) == ".dsc" <==> ".dsc" <= ext;
  }

  /** The conditions on the pieces are the conditions on the fields. */
  lemma WellCutIffWellFormed(format: Format, info: PackageInfo, f: string)
    requires f == FileName(format, info) && FixedFields(format, info) && PrintedCuts(format, info).arch <= |f|
    ensures WellCut(f, PrintedCuts(format, info)) <==> WellFormed(format, info)
  {
    match format
    case Orig => OrigPieces(info, f);
    case Dsc => DscPieces(info, f);
    case Tar => TarPieces(info, f);
    case Binary => BinaryPieces(info, f);
  }

  lemma DotOpens(f: string, d: nat, ext: string)
    requires d <= |f| && f[d..|f|] == ext
    ensures ext != "" ==> d < |f| && ext[0] == f[d] && ext[1..] == f[d + 1..]
    ensures ext == "" ==> d == |f|
  {
  }

  lemma PrintedFields(format: Format, info: PackageInfo, f: string)
    requires f == FileName(format, info) && FixedFields(format, info)
    ensures PrintedCuts(format, info).arch <= |f|
    ensures Fields(info.component, f, PrintedCuts(format, info)) == info
  {
    var c := PrintedCuts(format, info);
    PrintedPieces(format, info, f);
    assert f[..c.name] == f[0..c.name] && f[c.arch..] == f[c.arch..|f|];
  }

  /** The lengths of the fields give the cuts back. */
  lemma FieldsGiveCuts(f: string, c: Cuts, component: string)
    requires c.name < c.version <= c.arch <= |f|
    requires if c.format == Binary then c.version < c.arch else c.version == c.arch
    ensures var info := Fields(component, f, c);
            PrintedCuts(c.format, info) == c && FixedFields(c.format, info)
  {
  }

  /** Parsing the printed file name gives the fields and the format back exactly if the
      fields are well formed for the format. */
  lemma ParseUndoesPrintIff(format: Format, info: PackageInfo)
    ensures ParseFile(info.component, FileName(format, info)) == Some((format, info)) <==> WellFormed(format, info)
  {
    var f := FileName(format, info);
    if FixedFields(format, info) {
      PrintedFields(format, info, f);
      CutIff(f, PrintedCuts(format, info));
      WellCutIffWellFormed(format, info, f);
    }
    if Cut(f).Some? {
      FieldsGiveCuts(f, Cut(f).value, info.component);
    }
  }

  // ---- whole paths --------------------------------------------------------------------

  predicate IsDirs(dirs: string) {
    dirs == "" || dirs[|dirs| - 1] == '/'
  }

  lemma LastSlashIs(pre: string, file: string)
    requires '/' !in file
    ensures RFind(pre + "/" + file, "/", |pre + "/" + file|) == Some(|pre|)
  {
    var path := pre + "/" + file;
    CharOccursAt(path, '/', |pre|);
    forall k: nat | |pre| < k <= |path| ensures !OccursAt(path, "/", k) {
      CharOccursAt(path, '/', k);
      if k < |path| { assert path[k] == file[k - |pre| - 1]; }
    }
    RFindIs(path, "/", |path|, |pre|);
  }

  lemma ComponentEnds(component: string, rest: string)
    requires '/' !in component
    ensures var path := POOL + component + "/" + rest;
            && POOL <= path && Find(path, "/", |POOL|) == Some(|POOL| + |component|)
            && path[|POOL|..|POOL| + |component|] == component
  {
    var path := POOL + component + "/" + rest;
    CharOccursAt(path, '/', |POOL| + |component|);
    forall k: nat | |POOL| <= k < |POOL| + |component| ensures !OccursAt(path, "/", k) {
      CharOccursAt(path, '/', k);
      assert path[k] == component[k - |POOL|];
    }
    FindIs(path, "/", |POOL|, |POOL| + |component|);
  }

  /** Only the component and what follows the last slash matter. */
  lemma PathIsParsedByFile(component: string, dirs: string, file: string)
    requires IsComponent(component) && IsDirs(dirs) && '/' !in file
    ensures ParseAs(PathOf(component, dirs, file)) == ParseFile(component, file)
  {
    var path := PathOf(component, dirs, file);
    var pre := PathBeforeFile(component, dirs, file);
    ComponentEnds(component, dirs + file);
    LastSlashIs(pre, file);
    assert path[|pre| + 1..] == file;
  }

  /** A printed path seen from its first and from its last slash. */
  lemma PathBeforeFile(component: string, dirs: string, file: string) returns (pre: string)
    requires IsDirs(dirs)
    ensures PathOf(component, dirs, file) == POOL + component + "/" + (dirs + file)
    ensures PathOf(component, dirs, file) == pre + "/" + file
  {
    if dirs == "" {
      pre := POOL + component;
    } else {
      pre := POOL + component + "/" + dirs[..|dirs| - 1];
      assert dirs == dirs[..|dirs| - 1] + "/";
    }
  }

  /** A parsed path is its component and file name around the directories it ignores. */
  lemma PathReassembles(path: string) returns (dirs: string, file: string)
    requires ParseAs(path).Some?
    ensures var (format, info) := ParseAs(path).value;
            && IsComponent(info.component) && IsDirs(dirs) && '/' !in file
            && path == PathOf(info.component, dirs, file)
            && ParseFile(info.component, file) == Some((format, info))
            && (format != Dsc ==> file == FileName(format, info))
            && FileName(format, info) <= file
  {
    var end, last := Find(path, "/", |POOL|).value, RFind(path, "/", |path|).value;
    FindIsFirst(path, "/", |POOL|);
    CharOccursAt(path, '/', end);
    SlashIsLast(path, last);
    dirs, file := path[end + 1..last + 1], path[last + 1..];
    SlicesAtSlashes(path, end, last);
    FieldsReassemble(path[|POOL|..end], file);
    assert ParseAs(path) == ParseFile(path[|POOL|..end], file);
  }

  lemma SlashIsLast(path: string, last: nat)
    requires RFind(path, "/", |path|) == Some(last)
    ensures last < |path| && path[last] == '/' && '/' !in path[last + 1..]
    ensures forall k: nat | last < k < |path| :: path[k] != '/'
  {
    RFindIsLast(path, "/", |path|);
    CharOccursAt(path, '/', last);
    forall k: nat | last < k < |path| ensures path[k] != '/' {
      CharOccursAt(path, '/', k);
    }
  }

  lemma SlicesAtSlashes(path: string, end: nat, last: nat)
    requires POOL <= path && |POOL| <= end <= last < |path| && path[end] == '/' && path[last] == '/'
    ensures path == PathOf(path[|POOL|..end], path[end + 1..last + 1], path[last + 1..])
    ensures IsDirs(path[end + 1..last + 1])
  {
    assert path == POOL + path[|POOL|..end] + [path[end]] + path[end + 1..last + 1] + path[last + 1..];
  }

  /** Parsing a printed path gives its fields and format back exactly if the component
      is known, nothing in the file name is a slash, and the fields are well formed. */
  lemma ParseUndoesPathIff(format: Format, info: PackageInfo, dirs: string)
    requires IsDirs(dirs)
    ensures ParseAs(PathOf(info.component, dirs, FileName(format, info))) == Some((format, info)) <==>
            IsComponent(info.component) && '/' !in FileName(format, info) && WellFormed(format, info)
  {
    var f := FileName(format, info);
    var path := PathOf(info.component, dirs, f);
    if ParseAs(path) == Some((format, info)) {
      var dirs', file := PathReassembles(path);
      assert '/' !in f;
      PathIsParsedByFile(info.component, dirs, f);
      ParseUndoesPrintIff(format, info);
    }
    if IsComponent(info.component) && '/' !in f && WellFormed(format, info) {
      PathIsParsedByFile(info.component, dirs, f);
      ParseUndoesPrintIff(format, info);
    }
  }

  /** The public parser returns the printed fields. */
  lemma ParseReturnsFields(format: Format, info: PackageInfo, dirs: string)
    requires IsDirs(dirs) && IsComponent(info.component)
    requires '/' !in FileName(format, info) && WellFormed(format, info)
    ensures Parse(PathOf(info.component, dirs, FileName(format, info))) == Some(info)
  {
    ParseUndoesPathIff(format, info, dirs);
  }

  /** What a .dsc file name keeps: everything up to the end of its last ".dsc". */
  lemma DscTailIsDropped(component: string, f: string)
    requires ParseFile(component, f).Some? && ParseFile(component, f).value.0 == Dsc
    ensures var d := Cut(f).value.arch;
            && d + 4 <= |f| && f[d..d + 4] == ".dsc" && '.' !in f[d + 1..]
            && FileName(Dsc, ParseFile(component, f).value.1) == f[..d + 4]
  {
    var c := Cut(f).value;
    CutsAtSeparators(f);
    PiecesReassemble(component, f, c);
    OccursIsSlice(f, ".dsc", c.arch);
    assert f[..c.arch] + f[c.arch..c.arch + 4] == f[..c.arch + 4];
    DscCutIsLastDot(f);
  }

  lemma DscCutIsLastDot(f: string)
    requires Cut(f).Some? && Cut(f).value.format == Dsc
    ensures '.' !in f[Cut(f).value.arch + 1..]
  {
    var d := Cut(f).value.arch;
    LastCharGuard(f, '.', d);
  }

  /** The last ".dsc" ends a file name exactly if the file name ends in ".dsc". */
  lemma EndsInDscIff(f: string, d: nat)
    requires d + 4 <= |f| && f[d..d + 4] == ".dsc" && '.' !in f[d + 1..]
    ensures f[..d + 4] == f <==> f[|f| - 4..] == ".dsc"
  {
    var e := |f| - 4;
    assert f[e] == f[e..][0];
    assert forall k | d < k < |f| :: f[k] == f[d + 1..][k - d - 1];
  }

  /** The printed fields are the whole file name, in every format, exactly if a file
      taken for a .dsc file ends in ".dsc". */
  lemma NothingIsLostIff(component: string, f: string)
    requires ParseFile(component, f).Some?
    ensures var (format, info) := ParseFile(component, f).value;
            FileName(format, info) == f <==> (format == Dsc ==> 4 <= |f| && f[|f| - 4..] == ".dsc")
  {
    FieldsReassemble(component, f);
    if ParseFile(component, f).value.0 == Dsc {
      DscTailIsDropped(component, f);
      EndsInDscIff(f, Cut(f).value.arch);
    }
  }

  /** Any dotless text after an accepted .dsc file name is accepted and dropped. */
  lemma DscTailIsAccepted(component: string, f: string, tail: string)
    requires ParseFile(component, f).Some? && ParseFile(component, f).value.0 == Dsc && '.' !in tail
    ensures ParseFile(component, f + tail) == ParseFile(component, f)
  {
    var c, g := Cut(f).value, f + tail;
    CutIff(f, c);
    OccursInDscTail(f, tail, c);
    DscTailPieces(f, tail, c);
    CutIff(g, c);
    assert g[..c.name] == f[..c.name];
  }

  /** The pieces that the conditions of a .dsc file speak of do not see the tail. */
  lemma DscTailPieces(f: string, tail: string, c: Cuts)
    requires c.name < c.version <= c.arch && c.arch < |f| && Substr(f, c.arch, 4) == ".dsc"
    ensures var g := f + tail;
            && g[0..c.name] == f[0..c.name] && g[c.name + 1..c.version] == f[c.name + 1..c.version]
            && g[c.arch + 1..] == f[c.arch + 1..] + tail
            && Substr(g, c.arch, 4) == ".dsc"
  {
    assert c.arch + 4 <= |f|;
    assert (f + tail)[c.arch..c.arch + 4] == f[c.arch..c.arch + 4];
  }

  lemma OrigHasOneDot(s: string, i: nat)
    requires OccursAt(s, ".orig", i)
    ensures i + 5 <= |s| && s[i] == '.' && s[i + 1] == 'o' && forall k | i < k < i + 5 :: s[k] != '.'
  {
    var orig := ".orig";
    assert forall k | i <= k < i + 5 :: s[k] == orig[k - i];
  }

  lemma OccursInDscTail(f: string, tail: string, c: Cuts)
    requires c.name < c.version <= c.arch < |f| && c.format == Dsc && WellCut(f, c) && '.' !in tail
    ensures Contains((f + tail)[c.name + 1..|f + tail|], ".orig") ==> Contains(f[c.name + 1..|f|], ".orig")
  {
    var g := f + tail;
    ContainsIff(g, c.name + 1, |g|, ".orig");
    ContainsIff(f, c.name + 1, |f|, ".orig");
    assert f[c.arch + 1] == Substr(f, c.arch, 4)[1];
    assert forall k | c.arch < k < |f| :: f[k] == f[c.arch + 1..][k - c.arch - 1];
    forall i: nat | OccursAt(g, ".orig", i) ensures i + 5 <= |f| && OccursAt(f, ".orig", i) {
      OrigHasOneDot(g, i);
    }
  }

  // ---- written out --------------------------------------------------------------------

  /** ".orig" occurs in `rest` and not in `name`. */
  ghost predicate OrigOnlyIn(name: string, rest: string) {
    (exists i: nat :: OccursAt(rest, ".orig", i)) && forall i: nat :: !OccursAt(name, ".orig", i)
  }

  lemma LooksOrigIff(name: string, rest: string)
    ensures LooksOrig(name, rest) <==> OrigOnlyIn(name, rest)
  {
    FindIsFirst(name, ".orig", 0);
    FindIsFirst(rest, ".orig", 0);
  }

  lemma TarTextIsExtension(ext: string)
    requires ext == ".tar.gz" || ext == ".tar.xz"
    ensures IsTarExtension(ext)
  {
    var tar, d := ".tar", 4;
    assert forall k | 0 <= k < 4 :: ext[k] == tar[k];
    LastCharGuard(ext, '.', d);
    forall k: nat | 0 < k <= d ensures !OccursAt(ext, tar, k) {
      assert tar[0] == '.' && tar[1] == 't' && ext[5] != 't';
    }
    RFindIs(ext, tar, d, 0);
    assert Substr(ext, d, 3) == ext[4..7];
    assert ext[4..7] == ".gz" || ext[4..7] == ".xz";
  }

  /** Source archives: every named .tar.gz and .tar.xz file that no .orig claims. */
  lemma TarFilesAreParsed(component: string, name: string, version: string, ext: string)
    requires ext == ".tar.gz" || ext == ".tar.xz"
    requires name != "" && '_' !in name && !OrigOnlyIn(name, version + ext)
    ensures ParseFile(component, name + "_" + version + ext) ==
            Some((Tar, PackageInfo(name, version, component, ext, "source")))
  {
    var info := PackageInfo(name, version, component, ext, "source");
    TarTextIsExtension(ext);
    LooksOrigIff(name, version + ext);
    assert FileName(Tar, info) == name + "_" + version + ext;
    ParseUndoesPrintIff(Tar, info);
  }

  /** And only a file whose last dot is followed by gz or xz is taken for one. */
  lemma TarFilesAreCompressed(component: string, f: string) returns (d: nat)
    requires ParseFile(component, f).Some? && ParseFile(component, f).value.0 == Tar
    ensures d + 3 <= |f| && f[d] == '.' && '.' !in f[d + 1..]
    ensures f[d + 1..d + 3] == "gz" || f[d + 1..d + 3] == "xz"
  {
    d := LastDot(f).value;
    LastCharGuard(f, '.', d);
    var part := Substr(f, d, 3);
    assert |part| == 3 && part == f[d..d + 3];
    assert f[d + 1..d + 3] == part[1..];
    assert part == ".gz" ==> part[1..] == "gz";
    assert part == ".xz" ==> part[1..] == "xz";
  }

  /** Original sources: every named file with an .orig part, and none in its name. */
  lemma OrigFilesAreParsed(component: string, name: string, version: string, ext: string)
    requires name != "" && '_' !in name && ".orig" <= ext && '.' in ext
    requires forall i: nat :: !OccursAt(name + "_" + version, ".orig", i)
    ensures ParseFile(component, name + "_" + version + ext) ==
            Some((Orig, PackageInfo(name, version, component, ext, "source")))
  {
    var info := PackageInfo(name, version, component, ext, "source");
    FindIsFirst(name + "_" + version, ".orig", 0);
    assert FileName(Orig, info) == name + "_" + version + ext;
    ParseUndoesPrintIff(Orig, info);
  }

  /** Source descriptions: every named .dsc file that no .orig claims. */
  lemma DscFilesAreParsed(component: string, name: string, version: string)
    requires name != "" && '_' !in name && !OrigOnlyIn(name, version + ".dsc")
    ensures ParseFile(component, name + "_" + version + ".dsc") ==
            Some((Dsc, PackageInfo(name, version, component, ".dsc", "source")))
  {
    var info := PackageInfo(name, version, component, ".dsc", "source");
    LooksOrigIff(name, version + ".dsc");
    assert FileName(Dsc, info) == name + "_" + version + ".dsc";
    ParseUndoesPrintIff(Dsc, info);
  }

  /** Binary packages: every named .deb file that no .orig claims. */
  lemma DebFilesAreParsed(component: string, name: string, version: string, arch: string)
    requires name != "" && '_' !in name && '_' !in version && !OrigOnlyIn(name, version + "_" + arch + ".deb")
    ensures ParseFile(component, name + "_" + version + "_" + arch + ".deb") ==
            Some((Binary, PackageInfo(name, version, component, ".deb", arch)))
  {
    var info := PackageInfo(name, version, component, ".deb", arch);
    LooksOrigIff(name, version + "_" + arch + ".deb");
    DebIsNeither(info.extension);
    assert FileName(Binary, info) == name + "_" + version + "_" + arch + ".deb";
    ParseUndoesPrintIff(Binary, info);
  }

  lemma DebIsNeither(ext: string)
    requires ext == ".deb"
    ensures '.' !in ext[1..] && !(".dsc" <= ext) && !IsCompressed(ext, 0)
  {
    var dsc := ".dsc";
    assert ext[2] != dsc[2];
    assert Substr(ext, 0, 3)[1] == 'd';
  }

  /** A path parses exactly if it is the pool, one of the three components, directories
      and a file name that parses; the component is reported. */
  lemma PoolPathsIff(path: string, format: Format, info: PackageInfo)
    ensures ParseAs(path) == Some((format, info)) <==>
            && (info.component == "main" || info.component == "contrib" || info.component == "non-free")
            && exists dirs, file :: InPool(path, info.component, dirs, file) &&
                 ParseFile(info.component, file) == Some((format, info))
  {
    if ParseAs(path) == Some((format, info)) {
      var dirs, file := PathReassembles(path);
      assert InPool(path, info.component, dirs, file);
    }
    if IsComponent(info.component) {
      if dirs, file :|
        InPool(path, info.component, dirs, file) && ParseFile(info.component, file) == Some((format, info))
      {
        PathIsParsedByFile(info.component, dirs, file);
      }
    }
  }

  /** `path` is /debian/pool/, the component, directories and a file name. */
  predicate InPool(path: string, component: string, dirs: string, file: string) {
    && path == "/debian/pool/" + component + "/" + dirs + file
    && (dirs != "" ==> dirs[|dirs| - 1] == '/') && '/' !in file
  }
}
