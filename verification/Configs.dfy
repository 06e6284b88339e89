/** Config: a key=value line parser, and the rendering it inverts. */
module Configs {
  import opened Wrappers
  import opened Strings

  /** The characters that trim strips. */
  predicate IsBlank(c: char) {
    c == ' ' || c == '\t' || c == '\r' || c == '\n'
  }

  predicate AllBlank(s: string) {
    forall i | 0 <= i < |s| :: IsBlank(s[i])
  }

  /** find_first_not_of(" \t\r\n") */
  function FirstNonBlank(s: string): (r: Option<nat>)
    ensures r.None? <==> AllBlank(s)
    ensures r.Some? ==> r.value < |s| && !IsBlank(s[r.value]) && AllBlank(s[..r.value])
  {
    if s == "" then None
    else if !IsBlank(s[0]) then Some(0)
    else
      var r := FirstNonBlank(s[1..]);
      assert r.Some? ==> s[..r.value + 1] == [s[0]] + s[1..][..r.value];
      assert s == [s[0]] + s[1..];
      if r.None? then None else Some(r.value + 1)
  }

  /** find_last_not_of(" \t\r\n") */
  function LastNonBlank(s: string): (r: Option<nat>)
    ensures r.None? <==> AllBlank(s)
    ensures r.Some? ==> r.value < |s| && !IsBlank(s[r.value]) && AllBlank(s[r.value + 1..])
  {
    if s == "" then None
    else if !IsBlank(s[|s| - 1]) then Some(|s| - 1)
    else
      var init := s[..|s| - 1];
      var r := LastNonBlank(init);
      assert r.Some? ==> s[r.value + 1..] == init[r.value + 1..] + [s[|s| - 1]];
      assert s == init + [s[|s| - 1]];
      r
  }

  function Trim(s: string): string {
    var first, last := FirstNonBlank(s), LastNonBlank(s);
    if first.None? || last.None? || last.value < first.value then "" else s[first.value..last.value + 1]
  }

  /** No blank at either end. */
  predicate IsTrimmed(s: string) {
    s != "" ==> !IsBlank(s[0]) && !IsBlank(s[|s| - 1])
  }

  /** Trim strips exactly the blanks around a trimmed core. */
  lemma TrimStripsPadding(a: string, s: string, b: string)
    requires AllBlank(a) && AllBlank(b) && IsTrimmed(s)
    ensures Trim(a + s + b) == s
  {
    var t := a + s + b;
    if s == "" {
      assert AllBlank(t);
    } else {
      assert t[|a|] == s[0] && t[|a| + |s| - 1] == s[|s| - 1];
      var first, last := FirstNonBlank(t), LastNonBlank(t);
      assert first.Some? && last.Some?;
      FirstIs(t, first.value, |a|);
      LastIs(t, last.value, |a| + |s| - 1);
      assert t[|a|..|a| + |s|] == s;
    }
  }

  lemma FirstIs(t: string, r: nat, i: nat)
    requires r < |t| && !IsBlank(t[r]) && AllBlank(t[..r])
    requires i < |t| && !IsBlank(t[i]) && forall k | 0 <= k < i :: IsBlank(t[k])
    ensures r == i
  {
    assert forall k | 0 <= k < r :: t[k] == t[..r][k];
  }

  lemma LastIs(t: string, r: nat, i: nat)
    requires r < |t| && !IsBlank(t[r]) && AllBlank(t[r + 1..])
    requires i < |t| && !IsBlank(t[i]) && forall k | i < k < |t| :: IsBlank(t[k])
    ensures r == i
  {
    assert forall k | r < k < |t| :: t[k] == t[r + 1..][k - r - 1];
  }

  lemma TrimIsTrimmed(s: string)
    ensures IsTrimmed(Trim(s))
    ensures Trim(s) != "" ==>
              exists i: nat | i < |s| :: !IsBlank(s[i]) && AllBlank(s[..i]) && Trim(s)[0] == s[i]
    ensures forall c | c in Trim(s) :: c in s
  {
    var first := FirstNonBlank(s);
    if Trim(s) != "" {
      assert Trim(s)[0] == s[first.value];
    }
  }

  /** parse_line: the binding of a line, None if the line is skipped. */
  function ParseLine(line: string): Option<(string, string)> {
    var trimmed := Trim(line);
    if trimmed == "" || trimmed[0] == '#' then None
    else
      var pos := Find(trimmed, "=", 0);
      if pos.None? then None
      else
        var key, value := Trim(trimmed[..pos.value]), Trim(trimmed[pos.value + 1..]);
        if key == "" then None else Some((key, value))
  }

  type Map = map<string, string>

  function ApplyLine(m: Map, line: string): Map {
    var b := ParseLine(line);
    if b.Some? then m[b.value.0 := b.value.1] else m
  }

  /** What std::getline yields, one line after another. */
  function Lines(text: string): seq<string> {
    if text == "" then []
    else
      var eol := Find(text, "\n", 0);
      if eol.None? then [text] else [text[..eol.value]] + Lines(text[eol.value + 1..])
  }

  function ApplyLines(m: Map, lines: seq<string>): Map
    decreases |lines|
  {
    if lines == [] then m else ApplyLines(ApplyLine(m, lines[0]), lines[1..])
  }

  class Config {
    var config: Map

    constructor ()
      ensures config == map[]
    {
      config := map[];
    }

    /** True if the line bound a key. */
    method ParseConfigLine(line: string) returns (bound: bool)
      modifies this
      ensures bound <==> ParseLine(line).Some?
      ensures config == ApplyLine(old(config), line)
    {
      var trimmed := Trim(line);
      if trimmed == "" {
        return false;
      }
      if trimmed[0] == '#' {
        return false;
      }
      var pos := Find(trimmed, "=", 0);
      if pos.None? {
        return false;
      }
      var key := Trim(trimmed[..pos.value]);
      var value := Trim(trimmed[pos.value + 1..]);
      if key == "" {
        return false;
      }
      config := config[key := value];
      return true;
    }

    /** None is a file that cannot be opened. */
    method LoadFromFile(file: Option<string>) returns (ok: bool)
      modifies this
      ensures ok <==> file.Some?
      ensures config == if file.Some? then ApplyLines(old(config), Lines(file.value)) else old(config)
    {
      if file.None? {
        return false;
      }
      var rest := file.value;
      while rest != ""
        invariant ApplyLines(config, Lines(rest)) == ApplyLines(old(config), Lines(file.value))
        decreases |rest|
      {
        var eol := Find(rest, "\n", 0);
        var line := if eol.Some? then rest[..eol.value] else rest;
        var _ := ParseConfigLine(line);
        rest := if eol.Some? then rest[eol.value + 1..] else "";
      }
      return true;
    }
  }

  // ---- rendering ------------------------------------------------------------------

  datatype Item =
    | Binding(before: string, key: string, mid: string, mid': string, value: string, after: string)
    | Empty(pad: string)
    | Comment(pad: string, text: string)

  function RenderItem(item: Item): string {
    match item
    case Binding(before, key, mid, mid', value, after) => before + key + mid + "=" + mid' + value + after
    case Empty(pad) => pad
    case Comment(pad, text) => pad + "#" + text
  }

  function Render(items: seq<Item>): string {
    if items == [] then "" else RenderItem(items[0]) + "\n" + Render(items[1..])
  }

  predicate GoodKey(key: string) {
    key != "" && IsTrimmed(key) && '=' !in key && key[0] != '#'
  }

  predicate Padded(item: Item) {
    match item
    case Binding(before, _, mid, mid', _, after) =>
      AllBlank(before) && AllBlank(mid) && AllBlank(mid') && AllBlank(after)
    case Empty(pad) => AllBlank(pad)
    case Comment(pad, _) => AllBlank(pad)
  }

  /** A printable item: blank padding, good keys and values, no line break anywhere. */
  predicate WellFormed(item: Item) {
    && Padded(item) && '\n' !in RenderItem(item)
    && (item.Binding? ==> GoodKey(item.key) && IsTrimmed(item.value))
  }

  /** What is left of the text around the value after the whole line is trimmed. */
  function TrimmedTail(mid': string, value: string): string {
    if value == "" then "" else mid' + value
  }

  lemma LineIsTrimmed(before: string, key: string, mid: string, mid': string, value: string, after: string)
    requires AllBlank(before) && AllBlank(mid') && AllBlank(after)
    requires key != "" && !IsBlank(key[0]) && IsTrimmed(value)
    ensures Trim(before + key + mid + "=" + mid' + value + after) == key + mid + "=" + TrimmedTail(mid', value)
  {
    var core := key + mid + "=" + TrimmedTail(mid', value);
    var rest := if value == "" then mid' + after else after;
    assert before + key + mid + "=" + mid' + value + after == before + core + rest;
    assert core[0] == key[0];
    assert value != "" ==> core[|core| - 1] == value[|value| - 1];
    TrimStripsPadding(before, core, rest);
  }

  lemma SplitAtEquals(key: string, mid: string, tail: string)
    requires '=' !in key && AllBlank(mid)
    ensures var t := key + mid + "=" + tail;
            && Find(t, "=", 0) == Some(|key| + |mid|)
            && t[..|key| + |mid|] == key + mid && t[|key| + |mid| + 1..] == tail
  {
    assert '=' !in mid;
    FindCharAfter(key + mid, '=', tail);
  }

  /** A well-formed binding reads back as its key and value, whatever the padding, and
      even if the value contains '='. */
  lemma BindingReadsBack(before: string, key: string, mid: string, mid': string, value: string, after: string)
    requires AllBlank(before) && AllBlank(mid) && AllBlank(mid') && AllBlank(after)
    requires GoodKey(key) && IsTrimmed(value)
    ensures ParseLine(before + key + mid + "=" + mid' + value + after) == Some((key, value))
  {
    LineIsTrimmed(before, key, mid, mid', value, after);
    ValueReadsBack(mid', value);
    CoreReadsBack(before + key + mid + "=" + mid' + value + after, key, mid, TrimmedTail(mid', value));
  }

  lemma CoreReadsBack(line: string, key: string, mid: string, tail: string)
    requires Trim(line) == key + mid + "=" + tail && GoodKey(key) && AllBlank(mid)
    ensures ParseLine(line) == Some((key, Trim(tail)))
  {
    var trimmed := Trim(line);
    SplitAtEquals(key, mid, tail);
    KeyReadsBack(key, mid);
    assert trimmed[0] == key[0];
    ParseTrimmed(line, trimmed, |key| + |mid|);
  }

  lemma ParseTrimmed(line: string, trimmed: string, pos: nat)
    requires Trim(line) == trimmed && trimmed != "" && trimmed[0] != '#'
    requires Find(trimmed, "=", 0) == Some(pos) && pos < |trimmed| && Trim(trimmed[..pos]) != ""
    ensures ParseLine(line) == Some((Trim(trimmed[..pos]), Trim(trimmed[pos + 1..])))
  {
  }

  lemma KeyReadsBack(key: string, mid: string)
    requires AllBlank(mid) && IsTrimmed(key)
    ensures Trim(key + mid) == key
  {
    TrimStripsPadding("", key, mid);
    assert "" + key + mid == key + mid;
  }

  lemma ValueReadsBack(mid': string, value: string)
    requires AllBlank(mid') && IsTrimmed(value)
    ensures Trim(TrimmedTail(mid', value)) == value
  {
    if value != "" {
      TrimStripsPadding(mid', value, "");
      assert mid' + value + "" == mid' + value;
    }
  }

  lemma KeyIsGood(t: string, pos: nat)
    requires IsTrimmed(t) && t != "" && t[0] != '#' && Find(t, "=", 0) == Some(pos) && Trim(t[..pos]) != ""
    ensures GoodKey(Trim(t[..pos]))
  {
    TrimIsTrimmed(t[..pos]);
    FindCharSplits(t, '=', 0);
    assert t[0..pos] == t[..pos];
    KeyStartsLine(t[..pos]);
  }

  /** Whatever a line yields is a good key with a trimmed value. */
  lemma ParsedIsGood(line: string)
    requires ParseLine(line).Some?
    ensures GoodKey(ParseLine(line).value.0) && IsTrimmed(ParseLine(line).value.1)
  {
    var t := Trim(line);
    var pos := Find(t, "=", 0).value;
    assert IsTrimmed(t) by { TrimIsTrimmed(line); }
    assert GoodKey(Trim(t[..pos])) by { KeyIsGood(t, pos); }
    assert IsTrimmed(Trim(t[pos + 1..])) by { TrimIsTrimmed(t[pos + 1..]); }
  }

  lemma KeyStartsLine(s: string)
    requires s != "" && !IsBlank(s[0])
    ensures Trim(s) != "" && Trim(s)[0] == s[0]
  {
    var first := FirstNonBlank(s);
    assert first.Some?;
    FirstIs(s, first.value, 0);
  }

  /** A padded binding reads back exactly if its key is good and its value trimmed. */
  lemma BindingReadsBackIff(before: string, key: string, mid: string, mid': string, value: string, after: string)
    requires AllBlank(before) && AllBlank(mid) && AllBlank(mid') && AllBlank(after)
    ensures ParseLine(before + key + mid + "=" + mid' + value + after) == Some((key, value)) <==>
            GoodKey(key) && IsTrimmed(value)
  {
    var line := before + key + mid + "=" + mid' + value + after;
    if GoodKey(key) && IsTrimmed(value) { BindingReadsBack(before, key, mid, mid', value, after); }
    if ParseLine(line) == Some((key, value)) { ParsedIsGood(line); }
  }

  lemma BlankLineIsSkipped(pad: string)
    requires AllBlank(pad)
    ensures ParseLine(pad) == None
  {
  }

  lemma CommentIsSkipped(pad: string, text: string)
    requires AllBlank(pad)
    ensures ParseLine(pad + "#" + text) == None
  {
    var line := pad + "#" + text;
    assert line[|pad|] == '#' && line == pad + ("#" + text);
    var first := FirstNonBlank(line);
    assert first.Some?;
    FirstIs(line, first.value, |pad|);
    var last := LastNonBlank(line);
    assert forall k | 0 <= k < |pad| :: line[k] == pad[k];
    assert Trim(line)[0] == '#';
  }

  function ApplyItem(m: Map, item: Item): Map {
    if item.Binding? then m[item.key := item.value] else m
  }

  lemma ItemReadsBack(m: Map, item: Item)
    requires WellFormed(item)
    ensures ApplyLine(m, RenderItem(item)) == ApplyItem(m, item)
  {
    match item
    case Binding(before, key, mid, mid', value, after) => BindingReadsBack(before, key, mid, mid', value, after);
    case Empty(pad) => BlankLineIsSkipped(pad);
    case Comment(pad, text) => CommentIsSkipped(pad, text);
  }

  /** The bindings laid over a map, one item after another. */
  function Overlay(m: Map, items: seq<Item>): Map
    decreases |items|
  {
    if items == [] then m else Overlay(ApplyItem(m, items[0]), items[1..])
  }

  lemma FirstLine(line: string, rest: string)
    requires '\n' !in line
    ensures Lines(line + "\n" + rest) == [line] + Lines(rest)
  {
    FindCharAfter(line, '\n', rest);
    assert (line + "\n" + rest)[|line| + 1..] == rest;
    assert (line + "\n" + rest)[..|line|] == line;
  }

  /** Loading rendered items applies exactly their bindings, in order. */
  lemma {:induction false} LoadAppliesBindings(m: Map, items: seq<Item>)
    requires forall i | 0 <= i < |items| :: WellFormed(items[i])
    ensures ApplyLines(m, Lines(Render(items))) == Overlay(m, items)
    decreases |items|
  {
    if items != [] {
      var line := RenderItem(items[0]);
      FirstLine(line, Render(items[1..]));
      ItemReadsBack(m, items[0]);
      var lines := [line] + Lines(Render(items[1..]));
      assert lines[0] == line && lines[1..] == Lines(Render(items[1..]));
      LoadAppliesBindings(ApplyItem(m, items[0]), items[1..]);
    }
  }

  /** Item `k` is the last to bind `key`. */
  predicate BindsLast(items: seq<Item>, key: string, k: nat) {
    && k < |items| && items[k].Binding? && items[k].key == key
    && forall j: nat | k < j < |items| && items[j].Binding? :: items[j].key != key
  }

  predicate NeverBinds(items: seq<Item>, key: string) {
    forall j | 0 <= j < |items| && items[j].Binding? :: items[j].key != key
  }

  lemma LastOfRest(items: seq<Item>, key: string, k: nat)
    requires items != [] && BindsLast(items, key, k)
    ensures if k == 0 then NeverBinds(items[1..], key) else BindsLast(items[1..], key, k - 1)
  {
    assert forall j | 0 < j < |items| :: items[j] == items[1..][j - 1];
  }

  /** The last binding of a key wins; a key that is not bound keeps its old value. */
  lemma {:induction false} LastBindingWins(m: Map, items: seq<Item>, key: string)
    ensures forall k: nat | BindsLast(items, key, k) ::
              key in Overlay(m, items) && Overlay(m, items)[key] == items[k].value
    ensures NeverBinds(items, key) ==>
              (key in Overlay(m, items) <==> key in m) && (key in m ==> Overlay(m, items)[key] == m[key])
    decreases |items|
  {
    if items != [] {
      LastBindingWins(ApplyItem(m, items[0]), items[1..], key);
      forall k: nat | BindsLast(items, key, k)
        ensures key in Overlay(m, items) && Overlay(m, items)[key] == items[k].value
      {
        LastOfRest(items, key, k);
      }
      assert NeverBinds(items, key) ==> NeverBinds(items[1..], key);
    }
  }

  lemma {:induction false} SomeBindingIsLast(items: seq<Item>, key: string, i: nat) returns (k: nat)
    requires i < |items| && items[i].Binding? && items[i].key == key
    ensures i <= k && BindsLast(items, key, k)
    decreases |items| - i
  {
    if j: nat :| i < j < |items| && items[j].Binding? && items[j].key == key {
      k := SomeBindingIsLast(items, key, j);
    } else {
      k := i;
    }
  }

  /** Any map, rendered with arbitrary padding, blank lines and comments, loads into an
      empty configuration as exactly that map. */
  lemma LoadInvertsRender(m: Map, items: seq<Item>)
    requires forall i | 0 <= i < |items| :: WellFormed(items[i])
    requires forall i | 0 <= i < |items| && items[i].Binding? ::
               items[i].key in m && items[i].value == m[items[i].key]
    requires forall key | key in m :: exists i :: 0 <= i < |items| && items[i].Binding? && items[i].key == key
    ensures ApplyLines(map[], Lines(Render(items))) == m
  {
    LoadAppliesBindings(map[], items);
    OverlayIsMap(m, items);
  }

  lemma OverlayIsMap(m: Map, items: seq<Item>)
    requires forall i | 0 <= i < |items| && items[i].Binding? ::
               items[i].key in m && items[i].value == m[items[i].key]
    requires forall key | key in m :: exists i :: 0 <= i < |items| && items[i].Binding? && items[i].key == key
    ensures Overlay(map[], items) == m
  {
    var loaded := Overlay(map[], items);
    forall key ensures key in loaded <==> key in m
               ensures key in m ==> loaded[key] == m[key]
    {
      KeyLoads(m, items, key);
    }
  }

  lemma KeyLoads(m: Map, items: seq<Item>, key: string)
    requires forall i | 0 <= i < |items| && items[i].Binding? ::
               items[i].key in m && items[i].value == m[items[i].key]
    requires key in m ==> exists i :: 0 <= i < |items| && items[i].Binding? && items[i].key == key
    ensures key in Overlay(map[], items) <==> key in m
    ensures key in m ==> Overlay(map[], items)[key] == m[key]
  {
    LastBindingWins(map[], items, key);
    if key in m {
      var i :| 0 <= i < |items| && items[i].Binding? && items[i].key == key;
      var k := SomeBindingIsLast(items, key, i);
      assert BindsLast(items, key, k);
    }
  }

  // ---- every line and every file ----------------------------------------------------------

  /** Exactly these four characters are trimmed. */
  lemma TrimmedCharIff(c: char)
    ensures Trim([c]) == "" <==> c == ' ' || c == '\t' || c == '\r' || c == '\n'
  {
    var s := [c];
    assert s[0] == c;
  }

  /** What trim takes away is blank. */
  lemma TrimCuts(s: string) returns (a: string, b: string)
    ensures s == a + (Trim(s) + b) && AllBlank(a) && AllBlank(b)
  {
    var first, last := FirstNonBlank(s), LastNonBlank(s);
    if first.None? || last.None? {
      a, b := s, "";
    } else {
      NonBlanksInOrder(s, first.value, last.value);
      a, b := s[..first.value], s[last.value + 1..];
      assert s == s[..first.value] + (s[first.value..last.value + 1] + s[last.value + 1..]);
    }
  }

  lemma NonBlanksInOrder(s: string, first: nat, last: nat)
    requires first < |s| && !IsBlank(s[first]) && last < |s| && AllBlank(s[last + 1..])
    ensures first <= last
  {
    assert forall k | last < k < |s| :: s[k] == s[last + 1..][k - last - 1];
  }

  /** The line binds `key` to `value`, with blanks around both. */
  predicate IsBindingLine(line: string, key: string, value: string,
                          before: string, mid: string, mid': string, after: string) {
    && line == before + (key + (mid + ("=" + (mid' + (value + after)))))
    && AllBlank(before) && AllBlank(mid) && AllBlank(mid') && AllBlank(after)
  }

  lemma BlanksJoin(a: string, b: string)
    requires AllBlank(a) && AllBlank(b)
    ensures AllBlank(a + b)
  {
  }

  lemma LeftNested(b: string, k: string, mid: string, e: string, mid': string, v: string, c: string)
    ensures b + (k + (mid + (e + (mid' + (v + c))))) == b + k + mid + e + mid' + v + c
  {
  }

  lemma BindingLineReads(line: string, key: string, value: string,
                         before: string, mid: string, mid': string, after: string)
    requires IsBindingLine(line, key, value, before, mid, mid', after) && GoodKey(key) && IsTrimmed(value)
    ensures ParseLine(line) == Some((key, value))
  {
    var equals := "=";
    assert line == before + key + mid + equals + mid' + value + after by {
      LeftNested(before, key, mid, equals, mid', value, after);
    }
    BindingReadsBack(before, key, mid, mid', value, after);
  }

  lemma Nested(a: string, b: string, k: string, mid: string, e: string, mid': string, v: string, c: string, d: string)
    ensures a + ((b + (k + mid)) + (e + (mid' + (v + c))) + d) ==
            (a + b) + (k + (mid + (e + (mid' + (v + (c + d))))))
  {
  }

  lemma PartsAreBinding(line: string, t: string, left: string, right: string, a: string, d: string,
                        key: string, b: string, m: string, value: string, m': string, c: string)
    requires line == a + (t + d) && t == left + ("=" + right)
    requires left == b + (key + m) && right == m' + (value + c)
    requires AllBlank(a) && AllBlank(b) && AllBlank(m) && AllBlank(m') && AllBlank(c) && AllBlank(d)
    ensures IsBindingLine(line, key, value, a + b, m, m', c + d)
  {
    BlanksJoin(a, b);
    BlanksJoin(c, d);
    Nested(a, b, key, m, "=", m', value, c, d);
  }

  lemma EqualsSplits(t: string, pos: nat)
    requires Find(t, "=", 0) == Some(pos)
    ensures pos < |t| && t == t[..pos] + ("=" + t[pos + 1..])
  {
    FindCharSplits(t, '=', 0);
    assert t == t[..pos] + ([t[pos]] + t[pos + 1..]);
  }

  lemma LineReadIsBinding(line: string, key: string, value: string)
      returns (before: string, mid: string, mid': string, after: string)
    requires ParseLine(line) == Some((key, value))
    ensures IsBindingLine(line, key, value, before, mid, mid', after)
  {
    var t := Trim(line);
    var pos := Find(t, "=", 0).value;
    EqualsSplits(t, pos);
    var left, right := t[..pos], t[pos + 1..];
    assert key == Trim(left) && value == Trim(right);
    var a, d := TrimCuts(line);
    var b, m := TrimCuts(left);
    var m', c := TrimCuts(right);
    before, mid, mid', after := a + b, m, m', c + d;
    PartsAreBinding(line, t, left, right, a, d, key, b, m, value, m', c);
  }

  /** For every line: it binds a key exactly if it is the key, an equals sign and the
      value with blanks around both, the key good and the value trimmed. All other lines
      are skipped. */
  lemma ParseLineIff(line: string, key: string, value: string)
    ensures ParseLine(line) == Some((key, value)) <==>
            && key != "" && IsTrimmed(key) && '=' !in key && key[0] != '#' && IsTrimmed(value)
            && exists before, mid, mid', after :: IsBindingLine(line, key, value, before, mid, mid', after)
  {
    if ParseLine(line) == Some((key, value)) {
      ParsedIsGood(line);
      var before, mid, mid', after := LineReadIsBinding(line, key, value);
    }
    if GoodKey(key) && IsTrimmed(value) {
      if before, mid, mid', after :| IsBindingLine(line, key, value, before, mid, mid', after) {
        BindingLineReads(line, key, value, before, mid, mid', after);
      }
    }
  }

  /** In particular a line without an equals sign is skipped. */
  lemma NoEqualsIsSkipped(line: string)
    requires '=' !in line
    ensures ParseLine(line) == None
  {
    TrimIsTrimmed(line);
    var t := Trim(line);
    FindCharSplits(t, '=', 0);
  }

  /** The lines, each with a line break. */
  function Unlines(lines: seq<string>): string {
    if lines == [] then "" else lines[0] + ("\n" + Unlines(lines[1..]))
  }

  predicate EndsInBreak(text: string) {
    text != "" && text[|text| - 1] == '\n'
  }

  lemma FirstBreak(text: string) returns (line: string, rest: string)
    requires '\n' in text
    ensures text == line + "\n" + rest && '\n' !in line
  {
    FindCharSplits(text, '\n', 0);
    assert text[0..] == text;
    var eol := Find(text, "\n", 0).value;
    line, rest := text[..eol], text[eol + 1..];
    assert text[0..eol] == line;
    assert text == line + [text[eol]] + rest;
  }

  lemma OnlyLine(text: string)
    requires text != "" && '\n' !in text
    ensures Lines(text) == [text]
  {
    FindCharSplits(text, '\n', 0);
    assert text[0..] == text;
  }

  lemma UnlinesOne(line: string, lines: seq<string>)
    ensures Unlines([line] + lines) == line + ("\n" + Unlines(lines))
  {
    assert ([line] + lines)[1..] == lines;
  }

  lemma BreakAfter(line: string, rest: string, text: string)
    requires text == line + "\n" + rest
    ensures EndsInBreak(text) <==> rest == "" || EndsInBreak(rest)
    ensures text + "\n" == line + ("\n" + (rest + "\n")) && text == line + ("\n" + rest)
  {
    var last := |text| - 1;
    assert rest != "" ==> text[last] == rest[|rest| - 1];
    assert rest == "" ==> text[last] == '\n';
  }

  /** The lines of a text are what stands between its line breaks; the last line counts
      even if no break follows it. */
  lemma {:induction false} LinesReassemble(text: string)
    ensures forall line | line in Lines(text) :: '\n' !in line
    ensures Unlines(Lines(text)) == if text == "" || EndsInBreak(text) then text else text + "\n"
    decreases |text|
  {
    if '\n' in text {
      var line, rest := FirstBreak(text);
      LinesReassemble(rest);
      FirstLine(line, rest);
      UnlinesOne(line, Lines(rest));
      BreakAfter(line, rest, text);
    } else if text != "" {
      var none: seq<string> := [];
      OnlyLine(text);
      UnlinesOne(text, none);
      assert [text] + none == [text];
    }
  }

  lemma {:induction false} UnlinesIsUnique(a: seq<string>, b: seq<string>)
    requires Unlines(a) == Unlines(b)
    requires forall line | line in a :: '\n' !in line
    requires forall line | line in b :: '\n' !in line
    ensures a == b
  {
    if a != [] && b != [] {
      assert a[0] in a && b[0] in b;
      var s := Unlines(a);
      FindCharAfter(a[0], '\n', Unlines(a[1..]));
      FindCharAfter(b[0], '\n', Unlines(b[1..]));
      assert s == a[0] + "\n" + Unlines(a[1..]) && s == b[0] + "\n" + Unlines(b[1..]);
      assert s[..|a[0]|] == a[0] && s[..|b[0]|] == b[0];
      assert s[|a[0]| + 1..] == Unlines(a[1..]) && s[|b[0]| + 1..] == Unlines(b[1..]);
      UnlinesIsUnique(a[1..], b[1..]);
      assert a == [a[0]] + a[1..] && b == [b[0]] + b[1..];
    }
  }

  /** So a file loads the same with and without its last line break. */
  lemma LastBreakIsOptional(text: string)
    requires text != "" && !EndsInBreak(text)
    ensures Lines(text + "\n") == Lines(text)
  {
    LinesReassemble(text);
    LinesReassemble(text + "\n");
    UnlinesIsUnique(Lines(text), Lines(text + "\n"));
  }
}
