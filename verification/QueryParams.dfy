/** How both routers read one parameter of a query string. */
module QueryParams {
  import opened Wrappers
  import opened Strings

  /** What stands between `from` and the next ampersand. */
  function ValueFrom(params: string, from: nat): string
    requires from <= |params|
  {
    var end := Find(params, "&", from);
    if end.None? then params[from..] else params[from..end.value]
  }

  /** The text after the first `marker`, "" if there is none. */
  function ParamOf(params: string, marker: string): string {
    var pos := Find(params, marker, 0);
    if pos.None? then "" else ValueFrom(params, pos.value + |marker|)
  }

  /** The first `marker` in `params` stands after `pre`, and `s` is what follows it up to
      an ampersand or the end. */
  predicate NamedAfter(params: string, marker: string, pre: string, s: string, post: string) {
    && params == pre + (marker + (s + post))
    && (forall i | 0 <= i < |pre| :: !OccursAt(params, marker, i))
    && '&' !in s && (post != "" ==> post[0] == '&')
  }

  /** `params` gives the parameter the value `s`; a missing parameter counts as "". */
  ghost predicate Gives(params: string, marker: string, s: string) {
    || (exists pre, post :: NamedAfter(params, marker, pre, s, post))
    || (s == "" && forall i: nat :: !OccursAt(params, marker, i))
  }

  lemma ValueEnds(params: string, from: nat, s: string, post: string)
    requires from <= |params| && params[from..] == s + post && '&' !in s && (post != "" ==> post[0] == '&')
    ensures ValueFrom(params, from) == s
  {
    FindCharSplits(params, '&', from);
    if post == "" {
      assert params[from..] == s;
    } else {
      var at := from + |s|;
      assert params[from..][|s|] == post[0] && params[at] == '&';
      assert params[from..at] == params[from..][..|s|] == s;
      CharGuard(params, '&', from, at);
    }
  }

  lemma MarkerFound(params: string, marker: string, pre: string, s: string, post: string)
    requires NamedAfter(params, marker, pre, s, post)
    ensures Find(params, marker, 0) == Some(|pre|)
    ensures params[|pre| + |marker|..] == s + post
  {
    assert params == pre + marker + (s + post);
    assert OccursAt(params, marker, |pre|);
    FindIs(params, marker, 0, |pre|);
  }

  lemma ValueFound(params: string, from: nat) returns (post: string)
    requires from <= |params|
    ensures var s := ValueFrom(params, from);
            params[from..] == s + post && '&' !in s && (post != "" ==> post[0] == '&')
  {
    var end := Find(params, "&", from);
    FindCharSplits(params, '&', from);
    post := if end.None? then "" else params[end.value..];
  }

  lemma MarkerIsSlice(params: string, marker: string, pos: nat)
    requires OccursAt(params, marker, pos)
    ensures params == params[..pos] + (marker + params[pos + |marker|..])
  {
    assert params[pos..pos + |marker|] == marker;
  }

  lemma NamedAt(params: string, marker: string, pos: nat, s: string, post: string)
    requires OccursAt(params, marker, pos) && forall i | 0 <= i < pos :: !OccursAt(params, marker, i)
    requires params[pos + |marker|..] == s + post && '&' !in s && (post != "" ==> post[0] == '&')
    ensures NamedAfter(params, marker, params[..pos], s, post)
  {
    MarkerIsSlice(params, marker, pos);
  }

  lemma ParamFound(params: string, marker: string, pos: nat) returns (post: string)
    requires Find(params, marker, 0) == Some(pos)
    ensures NamedAfter(params, marker, params[..pos], ParamOf(params, marker), post)
  {
    FindIsFirst(params, marker, 0);
    post := ValueFound(params, pos + |marker|);
    NamedAt(params, marker, pos, ParamOf(params, marker), post);
  }

  lemma NamedIsParam(params: string, marker: string, pre: string, s: string, post: string)
    requires NamedAfter(params, marker, pre, s, post)
    ensures ParamOf(params, marker) == s
  {
    MarkerFound(params, marker, pre, s, post);
    ValueEnds(params, |pre| + |marker|, s, post);
  }

  lemma NotFoundIff(params: string, marker: string)
    ensures Find(params, marker, 0).None? <==> forall i: nat :: !OccursAt(params, marker, i)
  {
    FindIsFirst(params, marker, 0);
  }

  lemma ParamIsGiven(params: string, marker: string)
    ensures Gives(params, marker, ParamOf(params, marker))
  {
    NotFoundIff(params, marker);
    if Find(params, marker, 0).Some? {
      var post := ParamFound(params, marker, Find(params, marker, 0).value);
    }
  }

  /** Exactly which parameter strings give the parameter the value `s`. */
  lemma ParamIff(params: string, marker: string, s: string)
    ensures ParamOf(params, marker) == s <==> Gives(params, marker, s)
  {
    ParamIsGiven(params, marker);
    if pre, post :| NamedAfter(params, marker, pre, s, post) {
      NamedIsParam(params, marker, pre, s, post);
    } else if Gives(params, marker, s) {
      NotFoundIff(params, marker);
    }
  }
}
