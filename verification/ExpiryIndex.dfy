/** std::set<std::pair<int64_t, std::string>>: the expiry index, kept as the
    strictly increasing sequence its iterator walks. Timestamps are only ever
    compared, so they are unbounded integers here. */
module ExpiryIndex {
  import opened Strings

  type Pair = (int, string)

  predicate PairLess(p: Pair, q: Pair) {
    p.0 < q.0 || (p.0 == q.0 && StringLess(p.1, q.1))
  }

  lemma PairLessTotal(p: Pair, q: Pair)
    ensures PairLess(p, q) || p == q || PairLess(q, p)
    ensures !(PairLess(p, q) && PairLess(q, p))
    ensures !PairLess(p, p)
  {
    StringLessTotal(p.1, q.1);
    StringLessTotal(p.1, p.1);
  }

  lemma PairLessTransitive(p: Pair, q: Pair, r: Pair)
    requires PairLess(p, q) && PairLess(q, r)
    ensures PairLess(p, r)
  {
    if p.0 == q.0 && q.0 == r.0 {
      StringLessTransitive(p.1, q.1, r.1);
    }
  }

  ghost predicate Sorted(s: seq<Pair>) {
    forall i, j | 0 <= i < j < |s| :: PairLess(s[i], s[j])
  }

  type PairSet = s: seq<Pair> | Sorted(s) witness []

  /** std::set::insert */
  function Insert(s: PairSet, p: Pair): (r: PairSet)
    ensures forall q :: q in r <==> q in s || q == p
  {
    if s == [] then [p]
    else if p == s[0] then s
    else if PairLess(p, s[0]) then
      assert forall j | 0 <= j < |s| :: PairLess(p, s[j]) by {
        forall j | 0 < j < |s| ensures PairLess(p, s[j]) { PairLessTransitive(p, s[0], s[j]); }
      }
      [p] + s
    else
      var rest: PairSet := Insert(s[1..], p);
      assert Sorted([s[0]] + rest) by {
        PairLessTotal(p, s[0]);
        forall j | 0 <= j < |rest| ensures PairLess(s[0], rest[j]) {
          assert rest[j] in s[1..] || rest[j] == p;
        }
      }
      assert forall q :: q in s <==> q == s[0] || q in s[1..];
      [s[0]] + rest
  }

  /** std::set::erase(key) */
  function Erase(s: PairSet, p: Pair): (r: PairSet)
    ensures forall q :: q in r <==> q in s && q != p
  {
    if s == [] then []
    else if s[0] == p then
      assert forall q :: q in s[1..] <==> q in s && q != p by { ErasedHead(s); }
      s[1..]
    else
      var rest: PairSet := Erase(s[1..], p);
      assert Sorted([s[0]] + rest) by {
        forall j | 0 <= j < |rest| ensures PairLess(s[0], rest[j]) { assert rest[j] in s[1..]; }
      }
      [s[0]] + rest
  }

  lemma ErasedHead(s: PairSet)
    requires s != []
    ensures forall q :: q in s[1..] <==> q in s && q != s[0]
  {
    forall q ensures q in s[1..] <==> q in s && q != s[0] {
      if q in s[1..] {
        var j :| 0 <= j < |s| - 1 && s[1..][j] == q;
        assert PairLess(s[0], s[j + 1]);
        PairLessTotal(s[0], q);
      }
    }
  }

  /** A std::set is determined by its elements. */
  lemma {:induction false} SortedIsUnique(a: PairSet, b: PairSet)
    requires forall q :: q in a <==> q in b
    ensures a == b
  {
    assert a != [] ==> a[0] in b;
    assert b != [] ==> b[0] in a;
    if a != [] {
      SmallestFirst(a, b[0]);
      SmallestFirst(b, a[0]);
      PairLessTotal(a[0], b[0]);
      assert a[0] == b[0];
      ErasedHead(a);
      ErasedHead(b);
      SortedIsUnique(a[1..], b[1..]);
      assert a == [a[0]] + a[1..] && b == [b[0]] + b[1..];
    }
  }

  lemma SmallestFirst(s: PairSet, p: Pair)
    requires p in s
    ensures s[0] == p || PairLess(s[0], p)
  {
    var i :| 0 <= i < |s| && s[i] == p;
  }

  /** The node ids the expiry scan collects before its early exit. */
  function Expired(s: seq<Pair>, now: int): seq<string> {
    if s == [] || s[0].0 > now then [] else [s[0].1] + Expired(s[1..], now)
  }

  /** The early exit loses nothing: exactly the pairs at or before `now` are collected,
      and they are a prefix of the index. */
  lemma {:induction false} ExpiredIsExact(s: PairSet, now: int)
    ensures |Expired(s, now)| <= |s|
    ensures forall i | 0 <= i < |Expired(s, now)| :: Expired(s, now)[i] == s[i].1 && s[i].0 <= now
    ensures forall i | |Expired(s, now)| <= i < |s| :: s[i].0 > now
  {
    if s != [] {
      if s[0].0 > now {
        forall i | 0 <= i < |s| ensures s[i].0 > now {
          assert i == 0 || PairLess(s[0], s[i]);
        }
      } else {
        ExpiredIsExact(s[1..], now);
      }
    }
  }

  lemma ExpiredFrom(s: seq<Pair>, it: nat, now: int)
    requires it < |s|
    ensures Expired(s[it..], now) == if s[it].0 > now then [] else [s[it].1] + Expired(s[it + 1..], now)
  {
    assert s[it..][1..] == s[it + 1..];
  }

  /** One step of the scan, which has collected `victims` so far. */
  lemma ExpiredStep(s: seq<Pair>, it: nat, now: int, victims: seq<string>, all: seq<string>)
    requires it < |s| && victims + Expired(s[it..], now) == all
    ensures s[it].0 <= now ==> victims + [s[it].1] + Expired(s[it + 1..], now) == all
    ensures s[it].0 > now ==> victims == all
  {
    ExpiredFrom(s, it, now);
  }
}
