/**
 * The Python string operations that the modelled code relies on: `str(n)`,
 * `int(s)`, `format` padding, `in`, `startswith`, `replace`, `split`,
 * `join`, `strip` and slicing. Strings are sequences of code points, as in
 * Python 3.
 */
module Text {
  import opened Wrappers

  // ---------------------------------------------------------------------
  // Decimal numbers: `str(n)` and `int(s)`
  // ---------------------------------------------------------------------

  predicate IsDigit(c: char) { '0' <= c <= '9' }

  predicate AllDigits(s: string) { forall i :: 0 <= i < |s| ==> IsDigit(s[i]) }

  function DigitChar(d: nat): (c: char)
    requires d < 10
    ensures IsDigit(c)
  {
    ('0' as int + d) as char
  }

  function DigitValue(c: char): (d: nat)
    requires IsDigit(c)
    ensures d < 10
  {
    c as int - '0' as int
  }

  /** `str(n)` for a non-negative integer: its decimal digits, without leading zeros. */
  function NatToString(n: nat): (s: string)
    ensures 1 <= |s| && AllDigits(s)
    ensures |s| == 1 <==> n < 10
    ensures n >= 10 ==> s[0] != '0'
    decreases n
  {
    if n < 10 then [DigitChar(n)] else NatToString(n / 10) + [DigitChar(n % 10)]
  }

  /** The number a string of decimal digits denotes (leading zeros allowed). */
  function DigitsValue(s: string): nat
    requires AllDigits(s)
    decreases |s|
  {
    if s == [] then 0 else DigitsValue(s[..|s| - 1]) * 10 + DigitValue(s[|s| - 1])
  }

  /**
   * `int(s)` for the strings this model feeds it: an optional `+` or `-`
   * followed by at least one ASCII digit. `None` stands for the ValueError
   * Python raises on anything else.
   */
  function ParseInt(s: string): (r: Option<int>)
    ensures r.Some? && AllDigits(s) ==> r.value >= 0
    ensures |s| == 0 ==> r.None?
  {
    if |s| >= 2 && (s[0] == '+' || s[0] == '-') && AllDigits(s[1..]) then
      var magnitude: int := DigitsValue(s[1..]);
      Some(if s[0] == '-' then -magnitude else magnitude)
    else if |s| >= 1 && AllDigits(s) then
      Some(DigitsValue(s))
    else
      None
  }

  lemma {:induction false} DigitsValueOfNatToString(n: nat)
    ensures DigitsValue(NatToString(n)) == n
    decreases n
  {
    if n >= 10 {
      var s := NatToString(n);
      assert s[..|s| - 1] == NatToString(n / 10);
      DigitsValueOfNatToString(n / 10);
    }
  }

  /** `int(str(n)) == n`: parsing undoes printing. */
  lemma ParseIntOfNatToString(n: nat)
    ensures ParseInt(NatToString(n)) == Some(n)
  {
    DigitsValueOfNatToString(n);
  }

  /** Leading zeros do not change the value of a digit string. */
  lemma {:induction false} DigitsValueLeadingZero(s: string)
    requires AllDigits(s)
    ensures AllDigits("0" + s) && DigitsValue("0" + s) == DigitsValue(s)
    decreases |s|
  {
    if s != [] {
      var t := "0" + s;
      assert t[..|t| - 1] == "0" + s[..|s| - 1];
      DigitsValueLeadingZero(s[..|s| - 1]);
    }
  }

  /** `str` is injective on non-negative integers. */
  lemma NatToStringInjective(m: nat, n: nat)
    requires NatToString(m) == NatToString(n)
    ensures m == n
  {
    DigitsValueOfNatToString(m);
    DigitsValueOfNatToString(n);
  }

  // ---------------------------------------------------------------------
  // Padding, prefixes, substrings
  // ---------------------------------------------------------------------

  /** `format(s, fill + ">" + str(width))`: `s` right-aligned in a field at least `width` wide. */
  function PadLeft(s: string, width: nat, fill: char): (r: string)
    ensures |r| == if |s| >= width then |s| else width
    ensures r[|r| - |s|..] == s
    ensures forall i :: 0 <= i < |r| - |s| ==> r[i] == fill
  {
    if |s| >= width then s else seq(width - |s|, _ => fill) + s
  }

  /** Python's `s.startswith(prefix)`. */
  predicate StartsWith(s: string, prefix: string) {
    |prefix| <= |s| && s[..|prefix|] == prefix
  }

  /** Python's `s.endswith(suffix)`. */
  predicate EndsWith(s: string, suffix: string) {
    |suffix| <= |s| && s[|s| - |suffix|..] == suffix
  }

  /** Python's `sub in s`: some suffix of `s` starts with `sub`. */
  predicate Contains(s: string, sub: string)
    decreases |s|
  {
    StartsWith(s, sub) || (|s| > 0 && Contains(s[1..], sub))
  }

  /** Python's `s[:n]` for `n >= 0`. */
  function Take(s: string, n: nat): (r: string)
    ensures |r| <= n && |r| <= |s| && StartsWith(s, r)
    ensures |s| <= n ==> r == s
    ensures |s| > n ==> |r| == n
  {
    if |s| <= n then s else s[..n]
  }

  /**
   * Python's `s.replace(sub, "")`: the occurrences of `sub` found scanning
   * left to right, without overlap, are deleted.
   */
  function RemoveAll(s: string, sub: string): (r: string)
    requires |sub| > 0
    ensures |r| <= |s|
    ensures !Contains(s, sub) ==> r == s
    ensures Contains(s, sub) ==> |r| <= |s| - |sub|
    decreases |s|
  {
    if StartsWith(s, sub) then RemoveAll(s[|sub|..], sub)
    else if s == [] then []
    else [s[0]] + RemoveAll(s[1..], sub)
  }

  /**
   * The scan of `replace`: when the first occurrence of `sub` starts right
   * after `a`, the text before it is kept and the scan goes on after it.
   */
  lemma {:induction false} RemoveAllScan(a: string, sub: string, b: string)
    requires |sub| > 0
    requires forall k :: 0 <= k < |a| ==> !StartsWith((a + sub + b)[k..], sub)
    ensures RemoveAll(a + sub + b, sub) == a + RemoveAll(b, sub)
    decreases |a|
  {
    var s := a + sub + b;
    if a == [] {
      assert s == sub + b;
      assert StartsWith(s, sub);
      assert s[|sub|..] == b;
    } else {
      assert !StartsWith(s[0..], sub);
      assert s[0..] == s;
      var t := a[1..] + sub + b;
      assert s[1..] == t;
      forall k | 0 <= k < |a[1..]|
        ensures !StartsWith(t[k..], sub)
      {
        assert t[k..] == s[k + 1..];
      }
      RemoveAllScan(a[1..], sub, b);
      assert [a[0]] + (a[1..] + RemoveAll(b, sub)) == a + RemoveAll(b, sub);
    }
  }

  /** A text without the first character of `sub` does not contain `sub`. */
  lemma {:induction false} NotContainsWithoutFirst(s: string, sub: string)
    requires |sub| > 0 && sub[0] !in s
    ensures !Contains(s, sub)
    ensures RemoveAll(s, sub) == s
    decreases |s|
  {
    if |s| > 0 {
      assert s[0] != sub[0];
      NotContainsWithoutFirst(s[1..], sub);
    }
  }

  /** `s.replace(sub, "")` leaves `s` as it was exactly when `sub` does not occur in it. */
  lemma RemoveAllUnchangedIff(s: string, sub: string)
    requires |sub| > 0
    ensures RemoveAll(s, sub) == s <==> !Contains(s, sub)
  {
    if Contains(s, sub) {
      assert |RemoveAll(s, sub)| < |s|;
    }
  }

  /** Python's `s.replace(pat, rep, 1)`: only the first occurrence is replaced. */
  function ReplaceFirst(s: string, pat: string, rep: string): (r: string)
    requires |pat| > 0
    ensures !Contains(s, pat) ==> r == s
    ensures StartsWith(s, pat) ==> r == rep + s[|pat|..]
    decreases |s|
  {
    if StartsWith(s, pat) then rep + s[|pat|..]
    else if s == [] then []
    else [s[0]] + ReplaceFirst(s[1..], pat, rep)
  }

  /** Python's `s.split(c, 1)[1]`: what follows the first `c`. */
  function AfterFirst(s: string, c: char): (r: string)
    requires c in s
    ensures |r| < |s| && s[|s| - |r| - 1] == c && s[|s| - |r|..] == r
    ensures c !in s[..|s| - |r| - 1]
    decreases |s|
  {
    if s[0] == c then s[1..] else AfterFirst(s[1..], c)
  }

  /** Splitting at the first `c` of `a + [c] + b`, where `a` has no `c`, leaves `b`. */
  lemma {:induction false} AfterFirstSplit(a: string, c: char, b: string)
    requires c !in a
    ensures c in a + [c] + b && AfterFirst(a + [c] + b, c) == b
    decreases |a|
  {
    var s := a + [c] + b;
    assert s[|a|] == c;
    if a != [] {
      assert s[1..] == a[1..] + [c] + b;
      AfterFirstSplit(a[1..], c, b);
    }
  }

  /** Every character of `sub` occurs in a text that contains `sub`. */
  lemma {:induction false} ContainsHasChar(s: string, sub: string, i: nat)
    requires Contains(s, sub) && i < |sub|
    ensures sub[i] in s
    decreases |s|
  {
    if StartsWith(s, sub) {
      assert s[i] == sub[i];
    } else {
      ContainsHasChar(s[1..], sub, i);
      assert sub[i] in s[1..];
    }
  }

  /** The position of the last `c` in `s` (`s.rfind(c)`, with None for -1). */
  function LastIndexOf(s: string, c: char): (r: Option<nat>)
    ensures r.Some? ==> r.value < |s| && s[r.value] == c && c !in s[r.value + 1..]
    ensures r.None? ==> c !in s
    decreases |s|
  {
    if s == [] then None
    else if s[|s| - 1] == c then Some(|s| - 1)
    else LastIndexOf(s[..|s| - 1], c)
  }

  lemma LastIndexOfAppend(d: string, c: char, b: string)
    requires c !in b
    ensures LastIndexOf(d + [c] + b, c) == Some(|d|)
  {
    var s := d + [c] + b;
    assert s[|d|] == c;
  }

  // ---------------------------------------------------------------------
  // Splitting into fields, joining, stripping
  // ---------------------------------------------------------------------

  predicate NoneIn(s: string, seps: set<char>) {
    forall i :: 0 <= i < |s| ==> s[i] !in seps
  }

  /** The longest prefix of `s` that holds no separator. */
  function FieldAt(s: string, seps: set<char>): (f: string)
    ensures |f| <= |s| && f == s[..|f|] && NoneIn(f, seps)
    ensures |f| == |s| || s[|f|] in seps
    decreases |s|
  {
    if s == [] || s[0] in seps then [] else [s[0]] + FieldAt(s[1..], seps)
  }

  /**
   * The maximal runs of characters outside `seps`, left to right. With the
   * whitespace set this is Python's `s.split()`; with `{c}` it is
   * `[b for b in s.split(c) if b]`.
   */
  function Fields(s: string, seps: set<char>): (fs: seq<string>)
    ensures forall i :: 0 <= i < |fs| ==> |fs[i]| > 0 && NoneIn(fs[i], seps)
    decreases |s|
  {
    if s == [] then []
    else if s[0] in seps then Fields(s[1..], seps)
    else
      var f := FieldAt(s, seps);
      [f] + Fields(s[|f|..], seps)
  }

  lemma {:induction false} FieldAtAppend(u: string, t: string, seps: set<char>)
    requires |FieldAt(u, seps)| < |u|
    ensures FieldAt(u + t, seps) == FieldAt(u, seps)
    decreases |u|
  {
    if u[0] !in seps {
      assert (u + t)[1..] == u[1..] + t;
      FieldAtAppend(u[1..], t, seps);
    }
  }

  lemma {:induction false} FieldAtSplit(a: string, c: char, b: string, seps: set<char>)
    requires NoneIn(a, seps) && c in seps
    ensures FieldAt(a + [c] + b, seps) == a
    decreases |a|
  {
    if a != [] {
      assert (a + [c] + b)[1..] == a[1..] + [c] + b;
      FieldAtSplit(a[1..], c, b, seps);
    }
  }

  lemma {:induction false} FieldAtWhole(s: string, seps: set<char>)
    requires NoneIn(s, seps)
    ensures FieldAt(s, seps) == s
    decreases |s|
  {
    if s != [] {
      FieldAtWhole(s[1..], seps);
    }
  }

  /**
   * Appending a separator-free field after a separator (or to nothing) adds
   * exactly that field at the end of the split.
   */
  lemma {:induction false} FieldsAppend(u: string, s: string, seps: set<char>)
    requires u == [] || u[|u| - 1] in seps
    requires |s| > 0 && NoneIn(s, seps)
    ensures Fields(u + s, seps) == Fields(u, seps) + [s]
    decreases |u|
  {
    if u == [] {
      assert u + s == s;
      FieldAtWhole(s, seps);
      assert s[|s|..] == [];
    } else if u[0] in seps {
      assert (u + s)[1..] == u[1..] + s;
      FieldsAppend(u[1..], s, seps);
    } else {
      var f := FieldAt(u, seps);
      assert |f| < |u| by {
        assert u[|u| - 1] !in seps ==> |f| == |u|;
      }
      FieldAtAppend(u, s, seps);
      assert (u + s)[|f|..] == u[|f|..] + s;
      FieldsAppend(u[|f|..], s, seps);
    }
  }

  /** Python's `sep.join(parts)`. */
  function Join(parts: seq<string>, sep: string): string
    decreases |parts|
  {
    if parts == [] then ""
    else if |parts| == 1 then parts[0]
    else parts[0] + sep + Join(parts[1..], sep)
  }

  /** The characters Python's `str.split()` and `str.strip()` treat as whitespace. */
  const Whitespace: set<char> := {
    ' ', '\t', '\n', '\r', '\U{000B}', '\U{000C}', '\U{001C}', '\U{001D}', '\U{001E}', '\U{001F}',
    '\U{0085}', '\U{00A0}', '\U{1680}',
    '\U{2000}', '\U{2001}', '\U{2002}', '\U{2003}', '\U{2004}', '\U{2005}', '\U{2006}',
    '\U{2007}', '\U{2008}', '\U{2009}', '\U{200A}',
    '\U{2028}', '\U{2029}', '\U{202F}', '\U{205F}', '\U{3000}'
  }

  /** A joined text starts with its first part's first character and ends with its last part's last character. */
  lemma {:induction false} JoinEnds(parts: seq<string>, sep: string)
    requires |parts| > 0 && forall i :: 0 <= i < |parts| ==> |parts[i]| > 0
    ensures var j := Join(parts, sep);
            var last := parts[|parts| - 1];
            |j| > 0 && j[0] == parts[0][0] && j[|j| - 1] == last[|last| - 1]
    decreases |parts|
  {
    if |parts| >= 2 {
      JoinEnds(parts[1..], sep);
    }
  }

  /**
   * Whitespace occurs only as single spaces between two other characters:
   * no other whitespace character, none at either end, no two in a row.
   */
  ghost predicate WhitespaceCollapsed(s: string) {
    && (forall i :: 0 <= i < |s| ==> s[i] in Whitespace ==> s[i] == ' ')
    && (|s| > 0 ==> s[0] !in Whitespace && s[|s| - 1] !in Whitespace)
    && (forall i, j :: 0 <= i < j < |s| && j == i + 1 ==> s[i] !in Whitespace || s[j] !in Whitespace)
  }

  /** Words without whitespace joined by single spaces are whitespace-collapsed. */
  lemma {:induction false} JoinCollapsed(parts: seq<string>)
    requires forall i :: 0 <= i < |parts| ==> |parts[i]| > 0 && NoneIn(parts[i], Whitespace)
    ensures WhitespaceCollapsed(Join(parts, " "))
    decreases |parts|
  {
    if |parts| == 1 {
      assert NoneIn(Join(parts, " "), Whitespace);
    } else if |parts| >= 2 {
      var first := parts[0];
      var rest := Join(parts[1..], " ");
      JoinCollapsed(parts[1..]);
      JoinEnds(parts[1..], " ");
      var s := first + " " + rest;
      assert Join(parts, " ") == s;
      forall i | 0 <= i < |s|
        ensures s[i] in Whitespace ==> s[i] == ' '
      {
        if i < |first| {
          assert s[i] == first[i];
        } else if i > |first| {
          assert s[i] == rest[i - |first| - 1];
        }
      }
      assert s[0] == first[0];
      assert s[|s| - 1] == rest[|rest| - 1];
      forall i, j | 0 <= i < j < |s| && j == i + 1
        ensures s[i] !in Whitespace || s[j] !in Whitespace
      {
        if i < |first| {
          assert s[i] == first[i];
        } else if i == |first| {
          assert s[j] == rest[0];
        } else {
          assert s[i] == rest[i - |first| - 1];
          assert s[j] == rest[j - |first| - 1];
        }
      }
    }
  }

  /** Splitting words joined by one separator character gives the words back. */
  lemma {:induction false} FieldsOfJoinWith(parts: seq<string>, c: char, seps: set<char>)
    requires c in seps
    requires forall i :: 0 <= i < |parts| ==> |parts[i]| > 0 && NoneIn(parts[i], seps)
    ensures Fields(Join(parts, [c]), seps) == parts
    decreases |parts|
  {
    if |parts| == 1 {
      FieldAtWhole(parts[0], seps);
      assert parts[0][|parts[0]|..] == [];
    } else if |parts| >= 2 {
      var first := parts[0];
      var rest := Join(parts[1..], [c]);
      var s := first + [c] + rest;
      assert Join(parts, [c]) == s;
      FieldAtSplit(first, c, rest, seps);
      assert s[|first|..] == [c] + rest;
      assert ([c] + rest)[1..] == rest;
      FieldsOfJoinWith(parts[1..], c, seps);
      assert parts == [first] + parts[1..];
    }
  }

  /** Splitting words joined by single spaces gives the words back. */
  lemma FieldsOfJoin(parts: seq<string>)
    requires forall i :: 0 <= i < |parts| ==> |parts[i]| > 0 && NoneIn(parts[i], Whitespace)
    ensures Fields(Join(parts, " "), Whitespace) == parts
  {
    assert ' ' in Whitespace;
    FieldsOfJoinWith(parts, ' ', Whitespace);
  }

  /** `" ".join(s.split())`: runs of whitespace become one space, the ends are trimmed. */
  function Collapse(s: string): string {
    Join(Fields(s, Whitespace), " ")
  }

  /** The collapsed text has only single spaces between words, and the words of `s`. */
  lemma CollapseShape(s: string)
    ensures WhitespaceCollapsed(Collapse(s))
    ensures Fields(Collapse(s), Whitespace) == Fields(s, Whitespace)
  {
    JoinCollapsed(Fields(s, Whitespace));
    FieldsOfJoin(Fields(s, Whitespace));
  }

  /** Collapsing twice is collapsing once. */
  lemma CollapseIdempotent(s: string)
    ensures Collapse(Collapse(s)) == Collapse(s)
  {
    CollapseShape(s);
  }

  function StripLeft(s: string): (r: string)
    ensures |r| <= |s| && r == s[|s| - |r|..]
    ensures forall i :: 0 <= i < |s| - |r| ==> s[i] in Whitespace
    ensures r == [] || r[0] !in Whitespace
    ensures s == [] || s[0] !in Whitespace ==> r == s
    decreases |s|
  {
    if s != [] && s[0] in Whitespace then StripLeft(s[1..]) else s
  }

  function StripRight(s: string): (r: string)
    ensures |r| <= |s| && r == s[..|r|]
    ensures forall i :: |r| <= i < |s| ==> s[i] in Whitespace
    ensures r == [] || r[|r| - 1] !in Whitespace
    decreases |s|
  {
    if s != [] && s[|s| - 1] in Whitespace then StripRight(s[..|s| - 1]) else s
  }

  /** Python's `s.strip()`. */
  function Strip(s: string): string {
    StripRight(StripLeft(s))
  }
}
