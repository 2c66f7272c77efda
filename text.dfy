/** Python string operations the pipeline relies on: `str.strip`, the
    whitespace and digit classes of its regular expressions, `int()` of a
    digit string and `", ".join(...)`. */
module Text {

  /** Python's `str.isspace()`: the characters `str.strip()` removes and the
      regular-expression class `\s` matches in a `str` pattern. */
  predicate IsSpace(c: char) {
    || c == ' '
    || ('\t' <= c <= '\r')                 // tab, line feed, vertical tab, form feed, carriage return
    || ('\U{1C}' <= c <= '\U{1F}')         // file, group, record and unit separators
    || c == '\U{85}' || c == '\U{A0}' || c == '\U{1680}'
    || ('\U{2000}' <= c <= '\U{200A}')
    || c == '\U{2028}' || c == '\U{2029}' || c == '\U{202F}' || c == '\U{205F}' || c == '\U{3000}'
  }

  /** An ASCII decimal digit. */
  predicate IsDigit(c: char) {
    '0' <= c <= '9'
  }

  predicate AllSpace(s: string) {
    forall i :: 0 <= i < |s| ==> IsSpace(s[i])
  }

  predicate AllDigits(s: string) {
    forall i :: 0 <= i < |s| ==> IsDigit(s[i])
  }

  lemma AllSpaceSlice(s: string, a: nat, b: nat)
    requires a <= b <= |s| && forall i :: a <= i < b ==> IsSpace(s[i])
    ensures AllSpace(s[a..b])
  {
    assert forall i :: 0 <= i < b - a ==> s[a..b][i] == s[a + i];
  }

  lemma AllDigitsSlice(s: string, a: nat, b: nat)
    requires a <= b <= |s| && forall i :: a <= i < b ==> IsDigit(s[i])
    ensures AllDigits(s[a..b])
  {
    assert forall i :: 0 <= i < b - a ==> s[a..b][i] == s[a + i];
  }

  /** `s.rstrip()`: the longest prefix of `s` that does not end in whitespace. */
  function RStrip(s: string): (r: string)
    ensures |r| <= |s| && r == s[..|r|]
    ensures AllSpace(s[|r|..])
    ensures r == [] || !IsSpace(r[|r| - 1])
    decreases |s|
  {
    if s != [] && IsSpace(s[|s| - 1]) then
      var r := RStrip(s[..|s| - 1]);
      assert s[|r|..] == s[..|s| - 1][|r|..] + [s[|s| - 1]];
      r
    else
      s
  }

  /** `RStrip` position by position: the kept characters are those of `s`,
      the dropped ones are whitespace. */
  lemma RStripAt(s: string)
    ensures forall i :: 0 <= i < |RStrip(s)| ==> RStrip(s)[i] == s[i]
    ensures forall i :: |RStrip(s)| <= i < |s| ==> IsSpace(s[i])
  {
    var r := RStrip(s);
    forall i | |r| <= i < |s| ensures IsSpace(s[i]) {
      assert s[|r|..][i - |r|] == s[i];
    }
  }

  /** `s.lstrip()`: the longest suffix of `s` that does not start with whitespace. */
  function LStrip(s: string): (r: string)
    ensures |r| <= |s| && r == s[|s| - |r|..]
    ensures AllSpace(s[..|s| - |r|])
    ensures r == [] || !IsSpace(r[0])
    decreases |s|
  {
    if s != [] && IsSpace(s[0]) then
      var r := LStrip(s[1..]);
      assert s[..|s| - |r|] == [s[0]] + s[1..][..|s| - 1 - |r|];
      r
    else
      s
  }

  /** `s.strip()`. */
  function Strip(s: string): (r: string)
  {
    LStrip(RStrip(s))
  }

  /** `RStrip` is determined by its contract: the cut point is the start of
      the trailing run of whitespace. */
  lemma {:induction false} RStripUnique(s: string, m: nat)
    requires m <= |s| && AllSpace(s[m..])
    requires m == 0 || !IsSpace(s[m - 1])
    ensures RStrip(s) == s[..m]
    decreases |s|
  {
    if m < |s| {
      assert s[m..][|s| - 1 - m] == s[|s| - 1];
      var t := s[..|s| - 1];
      assert t[m..] == s[m..|s| - 1];
      RStripUnique(t, m);
      assert t[..m] == s[..m];
    } else {
      assert s[..m] == s;
    }
  }

  lemma RStripIdempotent(s: string)
    ensures RStrip(RStrip(s)) == RStrip(s)
  {
    var r := RStrip(s);
    assert r[|r|..] == [];
    RStripUnique(r, |r|);
    assert r[..|r|] == r;
  }

  /** Trailing whitespace between `j` and `p` does not change what
      `rstrip` keeps. */
  lemma RStripThroughSpaces(s: string, j: nat, p: nat)
    requires j <= p <= |s| && AllSpace(s[j..p])
    ensures RStrip(s[..p]) == RStrip(s[..j])
  {
    var a := s[..j];
    var r := RStrip(a);
    var m := |r|;
    var b := s[..p];
    assert b[m..] == a[m..] + s[j..p];
    assert AllSpace(b[m..]) by {
      forall i | 0 <= i < |b[m..]| ensures IsSpace(b[m..][i]) {
        if i < |a[m..]| {
          assert b[m..][i] == a[m..][i];
        } else {
          assert b[m..][i] == s[j..p][i - |a[m..]|];
        }
      }
    }
    if m > 0 {
      assert b[m - 1] == r[m - 1];
    }
    RStripUnique(b, m);
    assert b[..m] == a[..m];
  }

  /** Stripping only the right end first changes nothing for `strip`. */
  lemma StripAfterRStrip(s: string)
    ensures Strip(RStrip(s)) == Strip(s)
  {
    RStripIdempotent(s);
  }

  /** The value of the character `c` as a digit. */
  function DigitOf(c: char): nat
    requires IsDigit(c)
  {
    (c as int - '0' as int) as nat
  }

  function DigitChar(d: nat): (c: char)
    requires d < 10
    ensures IsDigit(c) && DigitOf(c) == d
  {
    ('0' as int + d) as char
  }

  /** `int(s)` for a non-empty run of ASCII digits (leading zeros allowed). */
  function DigitsValue(s: string): nat
    requires AllDigits(s)
    decreases |s|
  {
    if s == [] then 0 else 10 * DigitsValue(s[..|s| - 1]) + DigitOf(s[|s| - 1])
  }

  /** `str(n)` for a natural number. */
  function NatToString(n: nat): (r: string)
    ensures |r| > 0 && AllDigits(r)
  {
    if n < 10 then [DigitChar(n)] else NatToString(n / 10) + [DigitChar(n % 10)]
  }

  lemma {:induction false} NatToStringValue(n: nat)
    ensures DigitsValue(NatToString(n)) == n
  {
    if n >= 10 {
      var s := NatToString(n);
      assert s[..|s| - 1] == NatToString(n / 10);
      NatToStringValue(n / 10);
    }
  }

  /** The digits of `s`, in order, with everything else dropped. */
  function Digits(s: string): (r: string)
    ensures AllDigits(r)
  {
    if s == [] then [] else (if IsDigit(s[0]) then [s[0]] else []) + Digits(s[1..])
  }

  lemma {:induction false} DigitsAppend(a: string, b: string)
    ensures Digits(a + b) == Digits(a) + Digits(b)
    decreases |a|
  {
    if a != [] {
      assert (a + b)[1..] == a[1..] + b;
      DigitsAppend(a[1..], b);
    } else {
      assert a + b == b;
    }
  }

  lemma {:induction false} DigitsOfSpaces(s: string)
    requires AllSpace(s)
    ensures Digits(s) == []
    decreases |s|
  {
    if s != [] {
      DigitsOfSpaces(s[1..]);
    }
  }

  lemma {:induction false} DigitsOfDigits(s: string)
    requires AllDigits(s)
    ensures Digits(s) == s
  {
    if s != [] {
      DigitsOfDigits(s[1..]);
      assert s == [s[0]] + s[1..];
    }
  }

  /** Digits of a text with one more character in front. */
  lemma DigitsCons(c: char, s: string)
    ensures Digits([c] + s) == (if IsDigit(c) then [c] else []) + Digits(s)
  {
    assert ([c] + s)[1..] == s;
  }

  /** `rstrip` never removes a digit. */
  lemma RStripKeepsDigits(s: string)
    ensures Digits(RStrip(s)) == Digits(s)
  {
    var r := RStrip(s);
    var tail := s[|r|..];
    assert s == r + tail;
    DigitsAppend(r, tail);
    DigitsOfSpaces(tail);
  }

  /** `lstrip` never removes a digit. */
  lemma LStripKeepsDigits(s: string)
    ensures Digits(LStrip(s)) == Digits(s)
  {
    var l := LStrip(s);
    var head := s[..|s| - |l|];
    assert s == head + l;
    DigitsAppend(head, l);
    DigitsOfSpaces(head);
  }

  /** Stripping whitespace never removes a digit. */
  lemma StripKeepsDigits(s: string)
    ensures Digits(Strip(s)) == Digits(s)
  {
    RStripKeepsDigits(s);
    LStripKeepsDigits(RStrip(s));
  }

  /** Python's `sep.join(parts)`. */
  function Join(parts: seq<string>, sep: string): string
    decreases |parts|
  {
    if |parts| == 0 then "" else if |parts| == 1 then parts[0] else parts[0] + sep + Join(parts[1..], sep)
  }

  /** Python's `[s] * n`. */
  function Repeat(s: string, n: nat): (r: seq<string>)
    ensures |r| == n && forall i :: 0 <= i < n ==> r[i] == s
  {
    if n == 0 then [] else [s] + Repeat(s, n - 1)
  }

  /** How many times the character `c` occurs in `s`. */
  function CountChar(s: string, c: char): nat
  {
    if s == [] then 0 else (if s[0] == c then 1 else 0) + CountChar(s[1..], c)
  }

  lemma {:induction false} CountCharAppend(a: string, b: string, c: char)
    ensures CountChar(a + b, c) == CountChar(a, c) + CountChar(b, c)
    decreases |a|
  {
    if a != [] {
      assert (a + b)[1..] == a[1..] + b;
      CountCharAppend(a[1..], b, c);
    } else {
      assert a + b == b;
    }
  }

  /** `c` does not occur in `s` exactly when `CountChar` is zero. */
  lemma {:induction false} CountCharAbsent(s: string, c: char)
    ensures CountChar(s, c) == 0 <==> c !in s
    decreases |s|
  {
    if s != [] {
      CountCharAbsent(s[1..], c);
      assert s == [s[0]] + s[1..];
    }
  }
}
