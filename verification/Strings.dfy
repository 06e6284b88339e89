/** The std::string operations the program relies on: searching, and the
    lexicographic order behind std::set<std::string>. `npos` is None. */
module Strings {
  import opened Wrappers

  /** `pat` occurs in `s` at index `i`. */
  predicate OccursAt(s: string, pat: string, i: nat) {
    i + |pat| <= |s| && forall k | 0 <= k < |pat| :: s[i + k] == pat[k]
  }

  /** std::string::find(pat, from): the lowest occurrence at or after `from`. */
  function Find(s: string, pat: string, from: nat): (r: Option<nat>)
    ensures r.Some? ==> from <= r.value && r.value + |pat| <= |s|
    decreases |s| - from
  {
    if from + |pat| > |s| then None
    else if OccursAt(s, pat, from) then Some(from)
    else if from == |s| then None
    else Find(s, pat, from + 1)
  }

  /** std::string::rfind(pat, from): the highest occurrence at or before `from`. */
  function RFind(s: string, pat: string, from: nat): (r: Option<nat>)
    ensures r.Some? ==> r.value <= from && r.value + |pat| <= |s|
  {
    if OccursAt(s, pat, from) then Some(from)
    else if from == 0 then None
    else RFind(s, pat, from - 1)
  }

  /** Find finds the first occurrence, if there is one. */
  lemma {:induction false} FindIsFirst(s: string, pat: string, from: nat)
    ensures var r := Find(s, pat, from);
            && (r.Some? ==> OccursAt(s, pat, r.value) && forall i: nat | from <= i < r.value :: !OccursAt(s, pat, i))
            && (r.None? ==> forall i: nat | from <= i :: !OccursAt(s, pat, i))
    decreases |s| - from
  {
    if from + |pat| <= |s| && !OccursAt(s, pat, from) && from < |s| {
      FindIsFirst(s, pat, from + 1);
    }
  }

  /** RFind finds the last occurrence, if there is one. */
  lemma {:induction false} RFindIsLast(s: string, pat: string, from: nat)
    ensures var r := RFind(s, pat, from);
            && (r.Some? ==> OccursAt(s, pat, r.value) && forall i: nat | r.value < i <= from :: !OccursAt(s, pat, i))
            && (r.None? ==> forall i: nat | i <= from :: !OccursAt(s, pat, i))
  {
    if !OccursAt(s, pat, from) && from > 0 {
      RFindIsLast(s, pat, from - 1);
    }
  }

  /** A one-character pattern occurs exactly where the character stands. */
  lemma CharOccursAt(s: string, c: char, i: nat)
    ensures OccursAt(s, [c], i) <==> i < |s| && s[i] == c
  {
    assert [c][0] == c;
  }

  /** Find of one character: everything before the hit is free of it. */
  lemma FindCharSplits(s: string, c: char, from: nat)
    requires from <= |s|
    ensures Find(s, [c], from).None? <==> c !in s[from..]
    ensures Find(s, [c], from).Some? ==>
              var i := Find(s, [c], from).value;
              from <= i < |s| && s[i] == c && c !in s[from..i]
  {
    FindIsFirst(s, [c], from);
    forall i: nat | i < |s|
      ensures OccursAt(s, [c], i) <==> s[i] == c
    {
      CharOccursAt(s, c, i);
    }
  }

  /** The first occurrence is found: the converse of Find's contract. */
  lemma FindIs(s: string, pat: string, from: nat, i: nat)
    requires from <= i && OccursAt(s, pat, i)
    requires forall k: nat | from <= k < i :: !OccursAt(s, pat, k)
    ensures Find(s, pat, from) == Some(i)
  {
    FindIsFirst(s, pat, from);
  }

  /** The last occurrence is found: the converse of RFind's contract. */
  lemma RFindIs(s: string, pat: string, from: nat, i: nat)
    requires i <= from && OccursAt(s, pat, i)
    requires forall k: nat | i < k <= from :: !OccursAt(s, pat, k)
    ensures RFind(s, pat, from) == Some(i)
  {
    RFindIsLast(s, pat, from);
  }

  /** find of one character. */
  lemma CharGuard(s: string, c: char, from: nat, i: nat)
    requires from <= |s|
    ensures Find(s, [c], from) == Some(i) <==> from <= i < |s| && s[i] == c && c !in s[from..i]
  {
    FindCharSplits(s, c, from);
    if from <= i < |s| && s[i] == c && c !in s[from..i] {
      CharOccursAt(s, c, i);
      forall k: nat | from <= k < i ensures !OccursAt(s, [c], k) {
        CharOccursAt(s, c, k);
        assert s[k] == s[from..i][k - from];
      }
      FindIs(s, [c], from, i);
    }
  }

  /** Finding a character that first stands right after a prefix free of it. */
  lemma FindCharAfter(a: string, c: char, b: string)
    requires c !in a
    ensures Find(a + [c] + b, [c], 0) == Some(|a|)
  {
    var s := a + [c] + b;
    CharOccursAt(s, c, |a|);
    forall k: nat | k < |a| ensures !OccursAt(s, [c], k) {
      CharOccursAt(s, c, k);
      assert s[k] == a[k];
    }
    FindIs(s, [c], 0, |a|);
  }

  /** The order of std::string, hence of std::set<std::string>. */
  predicate StringLess(a: string, b: string) {
    if b == "" then false
    else if a == "" then true
    else if a[0] == b[0] then StringLess(a[1..], b[1..])
    else a[0] < b[0]
  }

  /** `a` and `b` agree before `k`, where `a` has ended or has the smaller character. */
  predicate DiffersAt(a: string, b: string, k: nat) {
    k <= |a| && k < |b| && a[..k] == b[..k] && (k < |a| ==> a[k] < b[k])
  }

  /** The order is lexicographic. */
  lemma {:induction false} StringLessIff(a: string, b: string)
    ensures StringLess(a, b) <==> exists k: nat :: DiffersAt(a, b, k)
  {
    if a == "" || b == "" || a[0] != b[0] {
      assert b != "" && (a == "" || a[0] < b[0]) ==> DiffersAt(a, b, 0);
    } else {
      StringLessIff(a[1..], b[1..]);
      if k: nat :| DiffersAt(a[1..], b[1..], k) {
        assert a[..k + 1] == [a[0]] + a[1..][..k] && b[..k + 1] == [b[0]] + b[1..][..k];
        assert DiffersAt(a, b, k + 1);
      }
      if k: nat :| DiffersAt(a, b, k) {
        assert k > 0;
        assert a[1..][..k - 1] == a[..k][1..] && b[1..][..k - 1] == b[..k][1..];
        assert DiffersAt(a[1..], b[1..], k - 1);
      }
    }
  }

  lemma {:induction false} StringLessTotal(a: string, b: string)
    ensures StringLess(a, b) || a == b || StringLess(b, a)
    ensures !(StringLess(a, b) && StringLess(b, a))
    ensures a == b ==> !StringLess(a, b)
  {
    if a != "" && b != "" && a[0] == b[0] {
      StringLessTotal(a[1..], b[1..]);
      if a[1..] == b[1..] {
        assert a == [a[0]] + a[1..] && b == [b[0]] + b[1..];
      }
    }
  }

  lemma {:induction false} StringLessTransitive(a: string, b: string, c: string)
    requires StringLess(a, b) && StringLess(b, c)
    ensures StringLess(a, c)
  {
    if a != "" && b != "" && c != "" && a[0] == b[0] && b[0] == c[0] {
      StringLessTransitive(a[1..], b[1..], c[1..]);
    }
  }
}
