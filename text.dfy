/**
  The handful of Python string operations the door system relies on:
  `startswith`/`endswith`, `strip()`, `replace`, `split(',', 2)`,
  `int(...)` on user input and `str(n)` for a positive counter.
  Strings are sequences of Unicode scalar values, as Python 3 `str` is.
 */
module Text {
  import opened Wrappers

  predicate StartsWith(s: string, prefix: string) {
    |prefix| <= |s| && s[..|prefix|] == prefix
  }

  predicate EndsWith(s: string, suffix: string) {
    |suffix| <= |s| && s[|s| - |suffix|..] == suffix
  }

  /** True iff the pattern occurs somewhere in `s`. */
  predicate Contains(s: string, pat: string) {
    exists i :: 0 <= i <= |s| && OccursAt(s, pat, i)
  }

  predicate OccursAt(s: string, pat: string, i: int) {
    0 <= i && i + |pat| <= |s| && s[i..i + |pat|] == pat
  }

  /** Python's `str.isspace()` for a single character: the characters `strip()` removes. */
  predicate IsSpace(c: char) {
    || c == ' '
    || ('\t' <= c <= '\r')
    || ('\U{1c}' <= c <= '\U{1f}')
    || c == '\U{85}' || c == '\U{a0}' || c == '\U{1680}'
    || ('\U{2000}' <= c <= '\U{200a}')
    || c == '\U{2028}' || c == '\U{2029}' || c == '\U{202f}' || c == '\U{205f}' || c == '\U{3000}'
  }

  /** Digits are never blanks. */
  lemma DigitNotSpace(c: char)
    requires '0' <= c <= '9'
    ensures !IsSpace(c)
  {
  }

  function StripLeft(s: string): (r: string)
    ensures |r| <= |s| && r == s[|s| - |r|..]
    ensures r == [] || !IsSpace(r[0])
    ensures forall i :: 0 <= i < |s| - |r| ==> IsSpace(s[i])
  {
    if s == [] || !IsSpace(s[0]) then s else StripLeft(s[1..])
  }

  function StripRight(s: string): (r: string)
    ensures |r| <= |s| && r == s[..|r|]
    ensures r == [] || !IsSpace(r[|r| - 1])
    ensures forall i :: |r| <= i < |s| ==> IsSpace(s[i])
  {
    if s == [] || !IsSpace(s[|s| - 1]) then s else StripRight(s[..|s| - 1])
  }

  /**
    Python's `s.strip()`: the result is a contiguous piece of `s`, every
    character cut away is whitespace, and the result neither starts nor
    ends with whitespace.
   */
  function Strip(s: string): (r: string)
    ensures LeadingSpaces(s) + |r| <= |s|
    ensures r == s[LeadingSpaces(s)..LeadingSpaces(s) + |r|]
    ensures forall i :: 0 <= i < LeadingSpaces(s) ==> IsSpace(s[i])
    ensures forall i :: LeadingSpaces(s) + |r| <= i < |s| ==> IsSpace(s[i])
    ensures r == [] || (!IsSpace(r[0]) && !IsSpace(r[|r| - 1]))
  {
    StripRight(StripLeft(s))
  }

  /** How many characters `strip()` cuts from the front. */
  function LeadingSpaces(s: string): nat
  {
    |s| - |StripLeft(s)|
  }

  /** A string with nothing for `strip()` to remove is its own strip. */
  lemma StripTrimmed(s: string)
    requires s == [] || (!IsSpace(s[0]) && !IsSpace(s[|s| - 1]))
    ensures Strip(s) == s
  {
  }

  /** Stripping blanks from around a string that neither starts nor ends with one gives it back. */
  lemma StripPadded(pad: string, d: string)
    requires forall i :: 0 <= i < |pad| ==> IsSpace(pad[i])
    requires d != [] && !IsSpace(d[0]) && !IsSpace(d[|d| - 1])
    ensures Strip(pad + d + pad) == d
  {
    assert pad + d + pad == pad + (d + pad);
    StripLeftPadded(pad, d + pad);
    StripRightPadded(d, pad);
  }

  lemma {:induction false} StripLeftPadded(pad: string, x: string)
    requires forall i :: 0 <= i < |pad| ==> IsSpace(pad[i])
    requires x != [] && !IsSpace(x[0])
    ensures StripLeft(pad + x) == x
    decreases |pad|
  {
    if pad != [] {
      assert (pad + x)[1..] == pad[1..] + x;
      StripLeftPadded(pad[1..], x);
    }
  }

  lemma {:induction false} StripRightPadded(x: string, pad: string)
    requires forall i :: 0 <= i < |pad| ==> IsSpace(pad[i])
    requires x != [] && !IsSpace(x[|x| - 1])
    ensures StripRight(x + pad) == x
    decreases |pad|
  {
    if pad != [] {
      assert (x + pad)[..|x + pad| - 1] == x + pad[..|pad| - 1];
      StripRightPadded(x, pad[..|pad| - 1]);
    } else {
      assert x + pad == x;
    }
  }

  /** Python's `s.replace(pat, "")`: every non-overlapping occurrence, scanned left to right, is removed. */
  function RemoveAll(s: string, pat: string): (r: string)
    requires |pat| > 0
    ensures |r| <= |s|
    decreases |s|
  {
    if |s| < |pat| then s
    else if s[..|pat|] == pat then RemoveAll(s[|pat|..], pat)
    else [s[0]] + RemoveAll(s[1..], pat)
  }

  /** A string free of `pat` stays free of it once its first character is dropped. */
  lemma NoOccurrenceInTail(u: string, pat: string)
    requires |u| > 0 && !Contains(u, pat)
    ensures !Contains(u[1..], pat)
  {
    forall i | 0 <= i <= |u[1..]|
      ensures !OccursAt(u[1..], pat, i)
    {
      assert !OccursAt(u, pat, i + 1);
      if i + |pat| <= |u| - 1 {
        assert u[1..][i..i + |pat|] == u[i + 1..i + 1 + |pat|];
      }
    }
  }

  /**
    When `u` is non-empty and free of `pat`, and `pat[0]` does not recur in
    `pat`, the string `u + pat` does not start with `pat`.
   */
  lemma NoOccurrenceAtFront(u: string, pat: string)
    requires |u| > 0 && |pat| > 0
    requires forall k :: 0 < k < |pat| ==> pat[k] != pat[0]
    requires !Contains(u, pat)
    ensures (u + pat)[..|pat|] != pat
  {
    var s := u + pat;
    if |u| >= |pat| {
      assert u[0..|pat|] == s[..|pat|];
      assert !OccursAt(u, pat, 0);
    } else {
      assert s[..|pat|][|u|] == s[|u|] == pat[0];
      assert pat[|u|] != pat[0];
    }
  }

  /**
    Removing every occurrence of `pat` from `u + pat` gives back `u`, as long
    as `u` holds no occurrence of `pat` and the first character of `pat`
    does not recur in it (true of "_encoding.npy").
   */
  lemma {:induction false} RemoveAllSuffix(u: string, pat: string)
    requires |pat| > 0
    requires forall k :: 0 < k < |pat| ==> pat[k] != pat[0]
    requires !Contains(u, pat)
    ensures RemoveAll(u + pat, pat) == u
    decreases |u|
  {
    var s := u + pat;
    if u == [] {
      assert s[..|pat|] == pat && s[|pat|..] == [];
    } else {
      NoOccurrenceAtFront(u, pat);
      NoOccurrenceInTail(u, pat);
      RemoveAllSuffix(u[1..], pat);
      assert s[1..] == u[1..] + pat;
      assert RemoveAll(s, pat) == [u[0]] + RemoveAll(s[1..], pat);
      assert u == [u[0]] + u[1..];
    }
  }

  /** Python's `s.split(sep, 2)`: at most three pieces, cut at the first two separators. */
  function SplitFirstTwo(s: string, sep: char): (parts: seq<string>)
    ensures 1 <= |parts| <= 3
    ensures forall k :: 0 <= k < |parts| - 1 ==> sep !in parts[k]
    ensures |parts| == 3 ==> s == parts[0] + [sep] + parts[1] + [sep] + parts[2]
    ensures |parts| == 2 ==> s == parts[0] + [sep] + parts[1] && sep !in parts[1]
    ensures |parts| == 1 ==> s == parts[0] && sep !in s
  {
    var (a, rest) := CutAt(s, sep);
    match rest
    case None => [a]
    case Some(tail) =>
      var (b, rest2) := CutAt(tail, sep);
      match rest2
      case None => [a, b]
      case Some(c) => [a, b, c]
  }

  /** `split(sep, 2)` gives three pieces exactly when `s` holds the separator at least twice. */
  lemma SplitFirstTwoCount(s: string, sep: char)
    ensures |SplitFirstTwo(s, sep)| == 3 <==> multiset(s)[sep] >= 2
  {
    var parts := SplitFirstTwo(s, sep);
    if |parts| == 3 {
      assert multiset(s) == multiset(parts[0]) + multiset{sep} + multiset(parts[1]) + multiset{sep} + multiset(parts[2]);
    } else if |parts| == 2 {
      assert multiset(s) == multiset(parts[0]) + multiset{sep} + multiset(parts[1]);
      assert sep !in multiset(parts[0]) && sep !in multiset(parts[1]);
    } else {
      assert sep !in multiset(s);
    }
  }

  /** Cuts `s` at the first `sep`, if there is one. */
  function CutAt(s: string, sep: char): (r: (string, Option<string>))
    ensures sep !in r.0
    ensures r.1.None? ==> r.0 == s
    ensures r.1.Some? ==> s == r.0 + [sep] + r.1.value
  {
    if s == [] then (s, None)
    else if s[0] == sep then ([], Some(s[1..]))
    else
      var (a, b) := CutAt(s[1..], sep);
      ([s[0]] + a, b)
  }

  /** Splitting a line joined from two separator-free fields and a third field gives the fields back. */
  lemma {:induction false} SplitJoined(a: string, b: string, c: string, sep: char)
    requires sep !in a && sep !in b
    ensures SplitFirstTwo(a + [sep] + b + [sep] + c, sep) == [a, b, c]
  {
    var s := a + [sep] + b + [sep] + c;
    CutAtFirst(a, b + [sep] + c, sep);
    assert s == a + [sep] + (b + [sep] + c);
    CutAtFirst(b, c, sep);
  }

  lemma {:induction false} CutAtFirst(a: string, rest: string, sep: char)
    requires sep !in a
    ensures CutAt(a + [sep] + rest, sep) == (a, Some(rest))
  {
    if a != [] {
      assert (a + [sep] + rest)[0] == a[0] != sep;
      assert (a + [sep] + rest)[1..] == a[1..] + [sep] + rest;
      CutAtFirst(a[1..], rest, sep);
      assert [a[0]] + a[1..] == a;
    }
  }

  // ---- decimal numbers ----

  predicate IsDigit(c: char) { '0' <= c <= '9' }

  function DigitValue(c: char): nat
    requires IsDigit(c)
  {
    (c as int) - ('0' as int)
  }

  /** The value of a non-empty run of ASCII digits, most significant first. */
  function DigitsValue(ds: string): nat
    requires forall i :: 0 <= i < |ds| ==> IsDigit(ds[i])
    decreases |ds|
  {
    if ds == [] then 0 else 10 * DigitsValue(ds[..|ds| - 1]) + DigitValue(ds[|ds| - 1])
  }

  /** Python's `str(n)` for a natural number: decimal digits without leading zeros. */
  function NatToString(n: nat): (s: string)
    ensures |s| > 0
    ensures forall i :: 0 <= i < |s| ==> IsDigit(s[i])
    decreases n
  {
    var last := ['0' + (n % 10) as char];
    if n < 10 then last else NatToString(n / 10) + last
  }

  lemma {:induction false} NatToStringValue(n: nat)
    ensures DigitsValue(NatToString(n)) == n
    decreases n
  {
    var s := NatToString(n);
    assert s[..|s| - 1] == (if n < 10 then [] else NatToString(n / 10));
    if n >= 10 {
      NatToStringValue(n / 10);
    }
  }

  /**
    The digit characters of a Python integer literal body: ASCII digits,
    with single underscores allowed between two digits (`int("1_000") == 1000`).
   */
  predicate IsDigitRun(s: string) {
    && |s| > 0 && IsDigit(s[0]) && IsDigit(s[|s| - 1])
    && (forall i :: 0 <= i < |s| ==> IsDigit(s[i]) || s[i] == '_')
    && (forall i :: 0 <= i < |s| - 1 ==> s[i] == '_' ==> s[i + 1] != '_')
  }

  function DropUnderscores(s: string): (ds: string)
    ensures |ds| <= |s|
    ensures (forall i :: 0 <= i < |s| ==> IsDigit(s[i]) || s[i] == '_') ==>
              forall i :: 0 <= i < |ds| ==> IsDigit(ds[i])
    ensures (forall i :: 0 <= i < |s| ==> IsDigit(s[i])) ==> ds == s
  {
    if s == [] then []
    else (if s[0] == '_' then [] else [s[0]]) + DropUnderscores(s[1..])
  }

  /**
    Python's `int(s)` on an already stripped string: an optional sign and a
    digit run; anything else is a `ValueError`, modelled as `None`.
   */
  function ParseInt(s: string): (r: Option<int>)
    ensures r.Some? ==> |s| > 0
  {
    var neg := |s| > 0 && s[0] == '-';
    var body := if |s| > 0 && (s[0] == '-' || s[0] == '+') then s[1..] else s;
    if !IsDigitRun(body) then None
    else
      var v: int := DigitsValue(DropUnderscores(body));
      Some(if neg then -v else v)
  }

  /** `int(str(n)) == n`: the decimal rendering of a counter parses back to it. */
  lemma ParseNatToString(n: nat)
    ensures ParseInt(NatToString(n)) == Some(n)
  {
    var s := NatToString(n);
    NatToStringValue(n);
    assert s[0] != '-' && s[0] != '+';
    assert DropUnderscores(s) == s;
  }
}
