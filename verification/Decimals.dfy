/** Unsigned decimal text: what std::format prints and what std::stoull reads. */
module Decimals {
  import opened Wrappers

  const U64: nat := 0x1_0000_0000_0000_0000

  predicate IsDigit(c: char) {
    '0' <= c <= '9'
  }

  predicate AllDigits(s: string) {
    forall i | 0 <= i < |s| :: IsDigit(s[i])
  }

  /** A number as the grammars write it: one or more digits, leading zeros allowed. */
  predicate IsNumber(s: string) {
    s != "" && AllDigits(s)
  }

  function Value(s: string): nat
    requires AllDigits(s)
  {
    if s == "" then 0 else Value(s[..|s| - 1]) * 10 + (s[|s| - 1] as int - '0' as int)
  }

  function Print(n: nat): (s: string)
    ensures IsNumber(s)
  {
    var d := ['0' + (n % 10) as char];
    if n < 10 then d else Print(n / 10) + d
  }

  lemma {:induction false} ValueOfPrint(n: nat)
    ensures Value(Print(n)) == n
  {
    if n >= 10 {
      ValueOfPrint(n / 10);
      assert Print(n)[..|Print(n)| - 1] == Print(n / 10);
    }
  }

  /** isspace in the C locale. */
  predicate IsSpace(c: char) {
    c == ' ' || c == '\t' || c == '\n' || c == '\r' || c == 11 as char || c == 12 as char
  }

  function SkipSpaces(s: string): string {
    if s != "" && IsSpace(s[0]) then SkipSpaces(s[1..]) else s
  }

  /** The longest run of digits at the front. */
  function DigitRun(s: string): (d: string)
    ensures d <= s && AllDigits(d)
    ensures |d| < |s| ==> !IsDigit(s[|d|])
  {
    if s != "" && IsDigit(s[0]) then [s[0]] + DigitRun(s[1..]) else ""
  }

  /** The value of a sign and its digits; None is invalid_argument or out_of_range. */
  function Signed(negative: bool, digits: string): (r: Option<nat>)
    requires AllDigits(digits)
    ensures r.Some? ==> r.value < U64
  {
    if digits == "" || Value(digits) >= U64 then None
    else if negative && Value(digits) > 0 then Some(U64 - Value(digits))
    else Some(Value(digits))
  }

  /** std::stoull in base ten: leading spaces and one sign are accepted, a minus wraps
      around, text after the digits is ignored; no digits, or a magnitude of 2^64 or
      more, throws (None). */
  function Stoull(s: string): (r: Option<nat>)
    ensures r.Some? ==> r.value < U64
  {
    var t := SkipSpaces(s);
    if t == "" then None
    else Signed(t[0] == '-', DigitRun(if t[0] == '-' || t[0] == '+' then t[1..] else t))
  }

  lemma DigitRunIs(digits: string, tail: string)
    requires AllDigits(digits)
    requires tail != "" ==> !IsDigit(tail[0])
    ensures DigitRun(digits + tail) == digits
  {
    var s, d := digits + tail, DigitRun(digits + tail);
    assert forall i | 0 <= i < |digits| :: s[i] == digits[i];
    assert tail != "" ==> s[|digits|] == tail[0];
    assert d == s[..|d|];
    assert |d| == |digits|;
  }

  lemma NumberStartsUnsigned(digits: string, tail: string)
    requires IsNumber(digits)
    ensures var s := digits + tail;
            SkipSpaces(s) == s && s != "" && s[0] != '-' && s[0] != '+'
  {
    assert (digits + tail)[0] == digits[0];
  }

  /** A number followed by anything that is not a digit reads as its value. */
  lemma StoullReadsNumber(digits: string, tail: string)
    requires IsNumber(digits)
    requires tail != "" ==> !IsDigit(tail[0])
    ensures Stoull(digits + tail) == Signed(false, digits)
  {
    NumberStartsUnsigned(digits, tail);
    DigitRunIs(digits, tail);
  }

  lemma StoullOfNumber(digits: string)
    requires IsNumber(digits)
    ensures Stoull(digits) == Signed(false, digits)
  {
    StoullReadsNumber(digits, "");
    assert digits + "" == digits;
  }

  // ---- exactly what is read -------------------------------------------------------

  predicate AllSpaces(s: string) {
    forall i | 0 <= i < |s| :: IsSpace(s[i])
  }

  predicate IsSign(s: string) {
    s == "" || s == "+" || s == "-"
  }

  /** `s` is spaces, a sign, a number and a tail that does not go on with a digit. */
  predicate Spells(s: string, spaces: string, sign: string, digits: string, tail: string) {
    && s == spaces + (sign + (digits + tail))
    && AllSpaces(spaces) && IsSign(sign) && IsNumber(digits)
    && (tail != "" ==> !IsDigit(tail[0]))
  }

  /** `s` spells the 64-bit number `n`, a minus sign counting modulo 2^64. */
  ghost predicate Denotes(s: string, n: nat) {
    exists spaces, sign, digits, tail ::
      Spells(s, spaces, sign, digits, tail) && Signed(sign == "-", digits) == Some(n)
  }

  lemma {:induction false} SpacesAreSkipped(spaces: string, rest: string)
    requires AllSpaces(spaces) && (rest != "" ==> !IsSpace(rest[0]))
    ensures SkipSpaces(spaces + rest) == rest
  {
    if spaces == "" {
      assert spaces + rest == rest;
    } else {
      SpacesAreSkipped(spaces[1..], rest);
      assert (spaces + rest)[1..] == spaces[1..] + rest;
    }
  }

  lemma {:induction false} SkippedSpaces(s: string) returns (spaces: string)
    ensures s == spaces + SkipSpaces(s) && AllSpaces(spaces)
    ensures SkipSpaces(s) != "" ==> !IsSpace(SkipSpaces(s)[0])
  {
    if s != "" && IsSpace(s[0]) {
      var more := SkippedSpaces(s[1..]);
      spaces := [s[0]] + more;
      assert s == [s[0]] + s[1..];
    } else {
      spaces := "";
    }
  }

  lemma StoullReads(spaces: string, sign: string, digits: string, tail: string)
    requires AllSpaces(spaces) && IsSign(sign) && IsNumber(digits)
    requires tail != "" ==> !IsDigit(tail[0])
    ensures Stoull(spaces + (sign + (digits + tail))) == Signed(sign == "-", digits)
  {
    var number := digits + tail;
    var rest := sign + number;
    assert number[0] == digits[0];
    assert rest[0] == if sign == "" then digits[0] else sign[0];
    SpacesAreSkipped(spaces, rest);
    assert (if sign == "" then rest else rest[1..]) == number;
    DigitRunIs(digits, tail);
  }

  /** The digits at the front and what follows them. */
  lemma DigitsAndTail(number: string) returns (tail: string)
    ensures number == DigitRun(number) + tail
    ensures tail != "" ==> !IsDigit(tail[0])
  {
    tail := number[|DigitRun(number)|..];
  }

  lemma AfterSpaces(t: string) returns (sign: string, digits: string, tail: string)
    requires t != ""
    ensures t == sign + (digits + tail) && IsSign(sign)
    ensures digits == DigitRun(if t[0] == '-' || t[0] == '+' then t[1..] else t)
    ensures sign == "-" <==> t[0] == '-'
    ensures tail != "" ==> !IsDigit(tail[0])
  {
    sign := if t[0] == '-' || t[0] == '+' then [t[0]] else "";
    var number := t[|sign|..];
    digits := DigitRun(number);
    tail := DigitsAndTail(number);
    assert t == sign + number;
  }

  lemma WhatStoullRead(s: string) returns (spaces: string, sign: string, digits: string, tail: string)
    requires Stoull(s).Some?
    ensures Spells(s, spaces, sign, digits, tail) && Stoull(s) == Signed(sign == "-", digits)
  {
    spaces := SkippedSpaces(s);
    sign, digits, tail := AfterSpaces(SkipSpaces(s));
  }

  /** stoull returns `n` exactly for the texts that spell it, and throws for all others. */
  lemma StoullIff(s: string, n: nat)
    ensures Stoull(s) == Some(n) <==> Denotes(s, n)
  {
    if Stoull(s) == Some(n) {
      var spaces, sign, digits, tail := WhatStoullRead(s);
    }
    if Denotes(s, n) {
      var spaces, sign, digits, tail :|
        Spells(s, spaces, sign, digits, tail) && Signed(sign == "-", digits) == Some(n);
      StoullReads(spaces, sign, digits, tail);
    }
  }

  /** No number starts with spaces and then a character of another kind. */
  lemma StoullThrows(spaces: string, c: char, rest: string)
    requires AllSpaces(spaces) && !IsSpace(c) && !IsDigit(c) && c != '-' && c != '+'
    ensures Stoull(spaces + [c] + rest) == None
  {
    assert spaces + [c] + rest == spaces + ([c] + rest);
    SpacesAreSkipped(spaces, [c] + rest);
  }

  /** A sign directly before a number is accepted. */
  lemma StoullOfSigned(sign: string, digits: string)
    requires IsSign(sign) && IsNumber(digits)
    ensures Stoull(sign + digits) == Signed(sign == "-", digits)
  {
    var none := "";
    assert none + (sign + (digits + none)) == sign + digits by { assert digits + none == digits; }
    StoullReads(none, sign, digits, none);
  }

  lemma SignedNegative(digits: string)
    requires IsNumber(digits)
    ensures Signed(true, digits) ==
            if Value(digits) >= U64 then None else Some(if Value(digits) == 0 then 0 else U64 - Value(digits))
  {
  }

  /** A minus sign wraps around. */
  lemma StoullWrapsNegative(digits: string)
    requires IsNumber(digits)
    ensures Stoull("-" + digits) ==
            if Value(digits) >= U64 then None else Some(if Value(digits) == 0 then 0 else U64 - Value(digits))
  {
    assert Stoull("-" + digits) == Signed(true, digits) by { StoullOfSigned("-", digits); }
    SignedNegative(digits);
  }

  // ---- written out --------------------------------------------------------------------

  /** One more digit shifts a number by one decimal place. */
  lemma ValueOfAppended(s: string, c: char)
    requires AllDigits(s) && '0' <= c <= '9'
    ensures AllDigits(s + [c]) && Value(s + [c]) == 10 * Value(s) + (c as int - '0' as int)
  {
    assert (s + [c])[..|s|] == s;
  }

  /** A number is read exactly if it is below 2^64. */
  lemma StoullFitsIff(digits: string)
    requires IsNumber(digits)
    ensures Stoull(digits) == if Value(digits) < 18446744073709551616 then Some(Value(digits)) else None
  {
    StoullOfNumber(digits);
  }

  /** The characters that may stand before a number: a digit, a sign, or one of the six
      white space characters. */
  lemma BeforeNumberIff(c: char)
    ensures Stoull([c] + "1").Some? <==>
            || '0' <= c <= '9' || c == '+' || c == '-'
            || c == ' ' || c == '\t' || c == '\n' || c == '\r' || c == 11 as char || c == 12 as char
  {
    var one, none := "1", "";
    if IsDigit(c) {
      DigitBeforeOne(c);
    } else if c == '+' || c == '-' {
      StoullOfSigned([c], one);
      OneIsOne();
    } else if IsSpace(c) {
      assert [c] + one == [c] + (none + (one + none));
      StoullReads([c], none, one, none);
      OneIsOne();
    } else {
      assert [c] + one == none + [c] + one;
      StoullThrows(none, c, one);
    }
  }

  lemma OneIsOne()
    ensures IsNumber("1") && Value("1") == 1
  {
    var one := "1";
    assert one[..0] == "";
  }

  lemma DigitBeforeOne(c: char)
    requires IsDigit(c)
    ensures Stoull([c] + "1").Some?
  {
    var none: string := "";
    assert Value([c]) == c as int - '0' as int by { ValueOfAppended(none, c); assert none + [c] == [c]; }
    ValueOfAppended([c], '1');
    StoullOfNumber([c] + "1");
  }
}
