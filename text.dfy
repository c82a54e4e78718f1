/**
 * The JavaScript string built-ins the bot relies on: `trim`, `toLowerCase`,
 * `includes` and `parseInt`, plus the decimal rendering used by template
 * strings such as `${hours}h`.
 */
module Text {
  import opened Wrappers

  /** The characters `String.prototype.trim` strips: ECMAScript WhiteSpace and LineTerminator. */
  predicate IsWhitespace(c: char) {
    || c == ' ' || c == '\t' || c == '\n' || c == '\r'
    || c == '\U{000B}' || c == '\U{000C}' || c == '\U{00A0}' || c == '\U{FEFF}'
    || c == '\U{1680}' || ('\U{2000}' <= c <= '\U{200A}')
    || c == '\U{2028}' || c == '\U{2029}' || c == '\U{202F}' || c == '\U{205F}' || c == '\U{3000}'
  }

  /** Drops the leading whitespace. */
  function TrimStart(s: string): string {
    if s != [] && IsWhitespace(s[0]) then TrimStart(s[1..]) else s
  }

  /** Drops the trailing whitespace. */
  function TrimEnd(s: string): string {
    if s != [] && IsWhitespace(s[|s| - 1]) then TrimEnd(s[..|s| - 1]) else s
  }

  /** `s.trim()`. */
  function Trim(s: string): string {
    TrimEnd(TrimStart(s))
  }

  /** `TrimStart` keeps the suffix of `s` that follows its leading whitespace. */
  lemma {:induction false} TrimStartShape(s: string)
    ensures |TrimStart(s)| <= |s| && TrimStart(s) == s[|s| - |TrimStart(s)|..]
    ensures TrimStart(s) == [] || !IsWhitespace(TrimStart(s)[0])
    ensures forall i :: 0 <= i < |s| - |TrimStart(s)| ==> IsWhitespace(s[i])
  {
    if s != [] && IsWhitespace(s[0]) {
      var t := TrimStart(s[1..]);
      TrimStartShape(s[1..]);
      assert TrimStart(s) == t;
      assert s[1..][|s| - 1 - |t|..] == s[|s| - |t|..];
      forall i | 0 <= i < |s| - |t|
        ensures IsWhitespace(s[i])
      {
        if i > 0 {
          assert s[i] == s[1..][i - 1];
        }
      }
    }
  }

  /** `TrimEnd` keeps the prefix of `s` that precedes its trailing whitespace. */
  lemma {:induction false} TrimEndShape(s: string)
    ensures |TrimEnd(s)| <= |s| && TrimEnd(s) == s[..|TrimEnd(s)|]
    ensures TrimEnd(s) == [] || !IsWhitespace(TrimEnd(s)[|TrimEnd(s)| - 1])
    ensures forall i :: |TrimEnd(s)| <= i < |s| ==> IsWhitespace(s[i])
  {
    if s != [] && IsWhitespace(s[|s| - 1]) {
      var t := TrimEnd(s[..|s| - 1]);
      TrimEndShape(s[..|s| - 1]);
      assert TrimEnd(s) == t;
      assert s[..|s| - 1][..|t|] == s[..|t|];
      forall i | |t| <= i < |s|
        ensures IsWhitespace(s[i])
      {
        if i < |s| - 1 {
          assert s[i] == s[..|s| - 1][i];
        }
      }
    }
  }

  /**
   * `Trim(s)` is the slice of `s` between its leading and its trailing
   * whitespace: it neither starts nor ends with whitespace, holds only
   * characters of `s`, and is empty exactly when `s` is all whitespace.
   */
  lemma TrimShape(s: string)
    ensures exists a, b :: 0 <= a <= b <= |s| && Trim(s) == s[a..b] && TrimmedAway(s, a, b)
    ensures Trim(s) == [] || (!IsWhitespace(Trim(s)[0]) && !IsWhitespace(Trim(s)[|Trim(s)| - 1]))
    ensures forall c :: c in Trim(s) ==> c in s
    ensures Trim(s) == [] <==> forall i :: 0 <= i < |s| ==> IsWhitespace(s[i])
  {
    var t := TrimStart(s);
    var r := TrimEnd(t);
    TrimStartShape(s);
    TrimEndShape(t);
    TrimSlice(s);
    assert forall i :: 0 <= i < |r| ==> r[i] == s[|s| - |t| + i];
    if r == [] {
      assert t == [];
    }
  }

  lemma TrimSlice(s: string)
    ensures exists a, b :: 0 <= a <= b <= |s| && Trim(s) == s[a..b] && TrimmedAway(s, a, b)
  {
    var t := TrimStart(s);
    var r := TrimEnd(t);
    TrimStartShape(s);
    TrimEndShape(t);
    var a := |s| - |t|;
    assert r == t[..|r|];
    assert t[..|r|] == s[a..a + |r|];
    assert TrimmedAway(s, a, a + |r|) by {
      forall i | a + |r| <= i < |s| ensures IsWhitespace(s[i]) {
        assert s[i] == t[i - a];
      }
    }
    assert 0 <= a <= a + |r| <= |s| && Trim(s) == s[a..a + |r|] && TrimmedAway(s, a, a + |r|);
  }

  /** Every character of `s` outside `[a, b)` is whitespace. */
  ghost predicate TrimmedAway(s: string, a: int, b: int)
    requires 0 <= a <= b <= |s|
  {
    forall i :: 0 <= i < |s| && !(a <= i < b) ==> IsWhitespace(s[i])
  }

  /** `toLowerCase` on one character; only the ASCII letters are mapped. */
  function LowerChar(c: char): char {
    if 'A' <= c <= 'Z' then (c as int + 32) as char else c
  }

  /** `s.toLowerCase()`: no ASCII capital is left, each one becomes its small letter, and every other character is kept. */
  function ToLower(s: string): (r: string)
    ensures |r| == |s| && forall i :: 0 <= i < |s| ==> r[i] == LowerChar(s[i])
    ensures forall i :: 0 <= i < |r| ==> !('A' <= r[i] <= 'Z')
    ensures forall i :: 0 <= i < |s| && 'A' <= s[i] <= 'Z' ==> r[i] as int == s[i] as int + 32
    ensures forall i :: 0 <= i < |s| && !('A' <= s[i] <= 'Z') ==> r[i] == s[i]
  {
    seq(|s|, i requires 0 <= i < |s| => LowerChar(s[i]))
  }

  /** Lowercasing twice is lowercasing once. */
  lemma ToLowerIdempotent(s: string)
    ensures ToLower(ToLower(s)) == ToLower(s)
  {
    assert forall i :: 0 <= i < |s| ==> LowerChar(LowerChar(s[i])) == LowerChar(s[i]);
  }

  /** `s.includes(sub)`: `sub` is a prefix of some suffix of `s`. */
  predicate Includes(s: string, sub: string)
    decreases |s|
  {
    sub <= s || (s != [] && Includes(s[1..], sub))
  }

  /** `sub` occurs in `s` starting at index `i`. */
  ghost predicate OccursAt(s: string, sub: string, i: int) {
    0 <= i <= |s| - |sub| && s[i..i + |sub|] == sub
  }

  /** `Includes` holds exactly when `sub` occurs in `s` at some position. */
  lemma {:induction false} IncludesAt(s: string, sub: string)
    ensures Includes(s, sub) <==> exists i :: OccursAt(s, sub, i)
  {
    if sub <= s {
      assert s[0..|sub|] == sub;
      assert OccursAt(s, sub, 0);
    } else if s == [] {
    } else {
      IncludesAt(s[1..], sub);
      if exists i :: OccursAt(s, sub, i) {
        var i :| OccursAt(s, sub, i);
        assert i != 0;
        OccursShift(s, sub, i);
      }
      if Includes(s[1..], sub) {
        var i :| OccursAt(s[1..], sub, i);
        OccursShift(s, sub, i + 1);
      }
    }
  }

  /** An occurrence after the first character is an occurrence in the tail. */
  lemma OccursShift(s: string, sub: string, i: int)
    requires 0 < i <= |s| - |sub|
    ensures OccursAt(s, sub, i) <==> OccursAt(s[1..], sub, i - 1)
  {
    assert s[i..i + |sub|] == s[1..][i - 1..i - 1 + |sub|];
  }

  predicate IsDigit(c: char) {
    '0' <= c <= '9'
  }

  predicate AllDigits(s: string) {
    forall i :: 0 <= i < |s| ==> IsDigit(s[i])
  }

  /** The decimal value of a digit string, most significant digit first. */
  function DigitsValue(ds: string): nat
    requires AllDigits(ds)
  {
    if ds == [] then 0
    else DigitsValue(ds[..|ds| - 1]) * 10 + (ds[|ds| - 1] as int - '0' as int)
  }

  /** The longest prefix of `s` made of decimal digits. */
  function LeadingDigits(s: string): (r: string)
    ensures r <= s && AllDigits(r)
    ensures |r| == |s| || !IsDigit(s[|r|])
  {
    if s != [] && IsDigit(s[0]) then [s[0]] + LeadingDigits(s[1..]) else []
  }

  /** `String(n)` for a natural number: its shortest decimal rendering. */
  function NatToString(n: nat): (r: string)
    ensures r != [] && AllDigits(r)
    ensures r[0] == '0' ==> n == 0
  {
    var d := ('0' as int + n % 10) as char;
    if n < 10 then [d] else NatToString(n / 10) + [d]
  }

  lemma {:induction false} NatToStringValue(n: nat)
    ensures DigitsValue(NatToString(n)) == n
  {
    var r := NatToString(n);
    if n >= 10 {
      NatToStringValue(n / 10);
      assert r[..|r| - 1] == NatToString(n / 10);
    }
  }

  /**
   * `parseInt(s)` without a radix: leading whitespace, an optional sign and
   * the longest run of decimal digits after it; `None` stands for `NaN`.
   */
  function ParseInt(s: string): Option<int> {
    var t := TrimStart(s);
    var negative := t != [] && t[0] == '-';
    var rest := if t != [] && (t[0] == '-' || t[0] == '+') then t[1..] else t;
    var ds := LeadingDigits(rest);
    if ds == [] then None else Some(if negative then -(DigitsValue(ds) as int) else DigitsValue(ds))
  }

  /** `parseInt` gives a number only if the text holds a digit, and a negative one only if it holds a minus sign. */
  lemma ParseIntNeedsDigit(s: string)
    ensures ParseInt(s).Some? ==> exists i :: 0 <= i < |s| && IsDigit(s[i])
    ensures ParseInt(s).Some? && ParseInt(s).value < 0 ==> '-' in s
  {
    var t := TrimStart(s);
    TrimStartShape(s);
    var rest := if t != [] && (t[0] == '-' || t[0] == '+') then t[1..] else t;
    var ds := LeadingDigits(rest);
    if ds != [] {
      assert IsDigit(s[|s| - |rest|]);
    }
    if t != [] && t[0] == '-' {
      assert s[|s| - |t|] == '-';
    }
  }

  /** `parseInt` reads back what `NatToString` writes, and its negation. */
  lemma ParseIntNatToString(n: nat)
    ensures ParseInt(NatToString(n)) == Some(n as int)
    ensures ParseInt("-" + NatToString(n)) == Some(-(n as int))
  {
    ParseIntPrefix(n, []);
    assert NatToString(n) + [] == NatToString(n);
    assert "-" + NatToString(n) + [] == "-" + NatToString(n);
  }

  /** `parseInt` stops at the first character after the digits: `"12h"` and `"1.5"` read as 12 and 1. */
  lemma ParseIntPrefix(n: nat, tail: string)
    requires tail == [] || !IsDigit(tail[0])
    ensures ParseInt(NatToString(n) + tail) == Some(n as int)
    ensures ParseInt("-" + NatToString(n) + tail) == Some(-(n as int))
  {
    NatToStringValue(n);
    ParseIntDigits(NatToString(n), tail);
  }

  /** A digit string followed by a non-digit reads as its value, with or without a minus sign. */
  lemma ParseIntDigits(ds: string, tail: string)
    requires ds != [] && AllDigits(ds)
    requires tail == [] || !IsDigit(tail[0])
    ensures ParseInt(ds + tail) == Some(DigitsValue(ds) as int)
    ensures ParseInt("-" + ds + tail) == Some(-(DigitsValue(ds) as int))
  {
    LeadingDigitsThen(ds, tail);
    ParseIntUnsigned(ds + tail, ds);
    ParseIntNegative(ds + tail, ds);
    Associate("-", ds, tail);
  }

  lemma Associate(a: string, b: string, c: string)
    ensures a + b + c == a + (b + c)
  {
  }

  /** A text starting with a digit reads as its leading digits. */
  lemma ParseIntUnsigned(p: string, ds: string)
    requires ds != [] && LeadingDigits(p) == ds
    ensures ParseInt(p) == Some(DigitsValue(ds) as int)
  {
    assert p[0] == ds[0] && !IsWhitespace(p[0]);
    assert TrimStart(p) == p;
  }

  /** A minus sign followed by a text starting with a digit reads as the negated digits. */
  lemma ParseIntNegative(p: string, ds: string)
    requires ds != [] && LeadingDigits(p) == ds
    ensures ParseInt("-" + p) == Some(-(DigitsValue(ds) as int))
  {
    var m := "-" + p;
    assert m[0] == '-' && !IsWhitespace(m[0]);
    assert TrimStart(m) == m;
    assert m[1..] == p;
  }

  /** The digits read from a digit string followed by a non-digit are that digit string. */
  lemma {:induction false} LeadingDigitsThen(r: string, tail: string)
    requires AllDigits(r)
    requires tail == [] || !IsDigit(tail[0])
    ensures LeadingDigits(r + tail) == r
  {
    if r != [] {
      assert (r + tail)[0] == r[0];
      assert (r + tail)[1..] == r[1..] + tail;
      LeadingDigitsThen(r[1..], tail);
    } else {
      assert r + tail == tail;
    }
  }

}
