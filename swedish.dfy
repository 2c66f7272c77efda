/** `clean_swedish_numeric_string`: rewrites Swedish-formatted amounts
    such as "1.234,56 kr" into text `pd.to_numeric` understands. The rewrite
    is purely textual and does not check that the result is a number. */
module Swedish {
  import opened Wrappers
  import opened Text
  import opened Decimals
  import opened Frames
  import opened Numeric

  /** `s.replace("kr", "")`: occurrences are removed left to right without
      overlapping, so "kkrr" becomes "kr". */
  function RemoveKr(s: string): string
    decreases |s|
  {
    if |s| >= 2 && s[0] == 'k' && s[1] == 'r' then RemoveKr(s[2..])
    else if s == [] then []
    else [s[0]] + RemoveKr(s[1..])
  }

  /** `s.replace(".", "")`. */
  function RemoveDots(s: string): string {
    if s == [] then [] else (if s[0] == '.' then [] else [s[0]]) + RemoveDots(s[1..])
  }

  /** What `RemoveDots` keeps comes from its input and is never a dot. */
  lemma {:induction false} RemoveDotsFrom(s: string)
    ensures forall c :: c in RemoveDots(s) ==> c in s && c != '.'
    decreases |s|
  {
    if s != [] {
      RemoveDotsFrom(s[1..]);
      assert forall c :: c in s[1..] ==> c in s;
    }
  }

  /** `s.replace(",", ".")`. */
  function CommaToDot(s: string): string {
    seq(|s|, i requires 0 <= i < |s| => if s[i] == ',' then '.' else s[i])
  }

  predicate StartsWithMinus(s: string) {
    |s| > 0 && s[0] == '-'
  }

  /** The text after "kr" is removed and the ends are stripped: the stage
      at which the source looks for a leading minus sign. */
  function Trimmed(s: string): string {
    Strip(RemoveKr(s))
  }

  /** The rewrite of a string: drop "kr", strip the ends, set a leading
      minus aside, delete every ".", turn every "," into ".", put the minus
      back. Inner whitespace is kept. */
  function CleanString(s: string): string {
    var t := Trimmed(s);
    var negative := StartsWithMinus(t);
    var u := if negative then t[1..] else t;
    var v := CommaToDot(RemoveDots(u));
    if negative then "-" + v else v
  }

  /** `clean_swedish_numeric_string` on a cell: only text is rewritten;
      missing values and numbers are returned unchanged. */
  function CleanSwedishNumeric(c: Cell): (r: Cell)
    ensures !c.Text? ==> r == c
    ensures c.Text? ==> r.Text? && ',' !in r.s && Digits(r.s) == Digits(c.s)
  {
    match c
    case Text(s) =>
      CleanNoComma(s);
      CleanKeepsDigits(s);
      Text(CleanString(s))
    case _ => c
  }

  // ---------------------------------------------------------------------
  // Properties of the rewrite

  lemma {:induction false} RemoveKrKeepsDigits(s: string)
    ensures Digits(RemoveKr(s)) == Digits(s)
    decreases |s|
  {
    if |s| >= 2 && s[0] == 'k' && s[1] == 'r' {
      RemoveKrKeepsDigits(s[2..]);
      assert s == [s[0]] + ([s[1]] + s[2..]);
      DigitsCons(s[0], [s[1]] + s[2..]);
      DigitsCons(s[1], s[2..]);
    } else if s != [] {
      RemoveKrKeepsDigits(s[1..]);
      DigitsCons(s[0], RemoveKr(s[1..]));
    }
  }

  lemma {:induction false} RemoveDotsKeepsDigits(s: string)
    ensures Digits(RemoveDots(s)) == Digits(s)
    decreases |s|
  {
    if s != [] {
      RemoveDotsKeepsDigits(s[1..]);
      var head := if s[0] == '.' then [] else [s[0]];
      DigitsAppend(head, RemoveDots(s[1..]));
      DigitsAppend([s[0]], s[1..]);
      assert s == [s[0]] + s[1..];
      assert Digits([s[0]]) == (if IsDigit(s[0]) then [s[0]] else []) by { assert [s[0]][1..] == []; }
      if s[0] == '.' { assert Digits(head) == []; }
    }
  }

  lemma {:induction false} CommaToDotKeepsDigits(s: string)
    ensures Digits(CommaToDot(s)) == Digits(s)
    decreases |s|
  {
    if s != [] {
      CommaToDotKeepsDigits(s[1..]);
      assert CommaToDot(s)[1..] == CommaToDot(s[1..]);
    }
  }

  /** The output never contains a comma. */
  lemma CleanNoComma(s: string)
    ensures ',' !in CleanString(s)
  {
    var t := Trimmed(s);
    var u := if StartsWithMinus(t) then t[1..] else t;
    var v := CommaToDot(RemoveDots(u));
    assert ',' !in v;
    if StartsWithMinus(t) {
      assert CleanString(s) == "-" + v;
    }
  }

  /** The digits of the output are exactly the digits of the input, in the
      same order. */
  lemma CleanKeepsDigits(s: string)
    ensures Digits(CleanString(s)) == Digits(s)
  {
    var t := Trimmed(s);
    RemoveKrKeepsDigits(s);
    StripKeepsDigits(RemoveKr(s));
    var u := if StartsWithMinus(t) then t[1..] else t;
    var v := CommaToDot(RemoveDots(u));
    CommaToDotKeepsDigits(RemoveDots(u));
    RemoveDotsKeepsDigits(u);
    if StartsWithMinus(t) {
      assert t == "-" + u;
      DigitsAppend("-", u);
      DigitsAppend("-", v);
      assert Digits("-") == [] by { assert "-"[1..] == []; }
    }
  }

  /** The output starts with "-" exactly when the trimmed input does once
      its dots are deleted. A leading minus is therefore always kept, and
      a minus that only follows leading dots (".-5") ends up in front. */
  lemma CleanSign(s: string)
    ensures StartsWithMinus(CleanString(s)) <==> StartsWithMinus(RemoveDots(Trimmed(s)))
    ensures StartsWithMinus(Trimmed(s)) ==> StartsWithMinus(CleanString(s))
  {
    var t := Trimmed(s);
    if StartsWithMinus(t) {
      assert t == [t[0]] + t[1..];
      assert RemoveDots(t) == [t[0]] + RemoveDots(t[1..]);
    }
  }

  // ---------------------------------------------------------------------
  // Swedish-formatted amounts are read back as the number they denote

  lemma {:induction false} RemoveKrWithoutK(a: string, b: string)
    requires 'k' !in a
    ensures RemoveKr(a + b) == a + RemoveKr(b)
    decreases |a|
  {
    if a != [] {
      assert (a + b)[0] == a[0];
      assert (a + b)[1..] == a[1..] + b;
      RemoveKrWithoutK(a[1..], b);
      assert a == [a[0]] + a[1..];
    } else {
      assert a + b == b;
    }
  }

  lemma {:induction false} RemoveDotsAppend(a: string, b: string)
    ensures RemoveDots(a + b) == RemoveDots(a) + RemoveDots(b)
    decreases |a|
  {
    if a != [] {
      assert (a + b)[1..] == a[1..] + b;
      RemoveDotsAppend(a[1..], b);
    } else {
      assert a + b == b;
    }
  }

  lemma {:induction false} RemoveDotsWithoutDots(s: string)
    requires '.' !in s
    ensures RemoveDots(s) == s
    decreases |s|
  {
    if s != [] {
      RemoveDotsWithoutDots(s[1..]);
      assert s == [s[0]] + s[1..];
    }
  }

  /** Digits grouped by dots, e.g. "1.234.567". */
  predicate IsGrouped(s: string) {
    forall i :: 0 <= i < |s| ==> IsDigit(s[i]) || s[i] == '.'
  }

  /** Deleting the group dots leaves digits. */
  lemma GroupedDigits(grouped: string)
    requires IsGrouped(grouped)
    ensures AllDigits(RemoveDots(grouped))
  {
    var whole := RemoveDots(grouped);
    RemoveDotsFrom(grouped);
    forall i | 0 <= i < |whole| ensures IsDigit(whole[i]) {
      assert whole[i] in whole;
    }
  }

  /** The Swedish rendering of a number: an optional minus, the whole part
      with dots between digit groups, a decimal comma, the fraction and an
      optional " kr". */
  function SwedishText(negative: bool, grouped: string, frac: string, currency: bool): string {
    SignText(negative) + grouped + "," + frac + (if currency then " kr" else "")
  }

  /** Cleaning a Swedish-formatted amount yields plain decimal text: the
      sign, the whole part without its group dots, a point and the
      fraction. */
  lemma CleanSwedishText(negative: bool, grouped: string, frac: string, currency: bool)
    requires IsGrouped(grouped) && AllDigits(frac)
    ensures CleanString(SwedishText(negative, grouped, frac, currency)) == SignText(negative) + RemoveDots(grouped) + "." + frac
  {
    var x := SignText(negative) + grouped + "," + frac;
    var s := SwedishText(negative, grouped, frac, currency);
    AmountHasNoK(negative, grouped, frac);
    assert s == x + (if currency then " kr" else "");
    TrimmedAmount(x, currency);
    SignOfAmount(negative, grouped, frac);
    CleanOfTrimmed(s, x);
    DotsAndComma(grouped, frac);
    Regroup(SignText(negative), RemoveDots(grouped), ".", frac);
  }

  lemma AmountHasNoK(negative: bool, grouped: string, frac: string)
    requires IsGrouped(grouped) && AllDigits(frac)
    ensures var x := SignText(negative) + grouped + "," + frac;
      'k' !in x && |x| > 0 && !IsSpace(x[0]) && !IsSpace(x[|x| - 1])
  {
    var x := SignText(negative) + grouped + "," + frac;
    var n := |SignText(negative)|;
    forall i | 0 <= i < |x| ensures x[i] == '-' || x[i] == ',' || x[i] == '.' || IsDigit(x[i]) {
      if i < n {
      } else if i < n + |grouped| {
        assert x[i] == grouped[i - n];
      } else if i > n + |grouped| {
        assert x[i] == frac[i - n - |grouped| - 1];
      }
    }
  }

  /** The leading minus the source looks for is exactly the one written. */
  lemma SignOfAmount(negative: bool, grouped: string, frac: string)
    requires IsGrouped(grouped)
    ensures var x := SignText(negative) + grouped + "," + frac;
      StartsWithMinus(x) == negative && (if negative then x[1..] else x) == grouped + "," + frac
  {
    var x := SignText(negative) + grouped + "," + frac;
    if negative {
      assert x == "-" + (grouped + "," + frac);
    } else {
      assert x == grouped + "," + frac;
      if |grouped| > 0 { assert x[0] == grouped[0]; } else { assert x[0] == ','; }
    }
  }

  /** Deleting the group dots and turning the decimal comma into a point. */
  lemma DotsAndComma(grouped: string, frac: string)
    requires IsGrouped(grouped) && AllDigits(frac)
    ensures CommaToDot(RemoveDots(grouped + "," + frac)) == RemoveDots(grouped) + "." + frac
  {
    var whole := RemoveDots(grouped);
    RemoveDotsAppend(grouped + ",", frac);
    RemoveDotsAppend(grouped, ",");
    assert RemoveDots(",") == ",";
    assert '.' !in frac;
    RemoveDotsWithoutDots(frac);
    assert RemoveDots(grouped + "," + frac) == whole + "," + frac;
    RemoveDotsFrom(grouped);
    assert ',' !in whole;
    assert ',' !in frac;
    CommaToDotAroundComma(whole, frac);
  }

  lemma Regroup(a: string, b: string, c: string, d: string)
    ensures a + (b + c + d) == a + b + c + d
  {
  }

  /** `CleanString` once the trimmed text is known. */
  lemma CleanOfTrimmed(s: string, t: string)
    requires Trimmed(s) == t
    ensures CleanString(s) == if StartsWithMinus(t) then "-" + CommaToDot(RemoveDots(t[1..])) else CommaToDot(RemoveDots(t))
  {
  }

  /** Rewriting the one comma of an amount whose parts have none. */
  lemma CommaToDotAroundComma(a: string, b: string)
    requires ',' !in a && ',' !in b
    ensures CommaToDot(a + "," + b) == a + "." + b
  {
    var w := a + "," + b;
    var r := CommaToDot(w);
    assert |r| == |a + "." + b|;
    forall i | 0 <= i < |w| ensures r[i] == (a + "." + b)[i] {
      if i < |a| {
        assert w[i] == a[i];
        assert a[i] in a;
      } else if i > |a| {
        assert w[i] == b[i - |a| - 1];
        assert b[i - |a| - 1] in b;
      }
    }
  }

  /** Removing "kr" and stripping leaves an amount written without a "k"
      and without surrounding whitespace. */
  lemma TrimmedAmount(x: string, currency: bool)
    requires 'k' !in x && |x| > 0 && !IsSpace(x[0]) && !IsSpace(x[|x| - 1])
    ensures Trimmed(x + (if currency then " kr" else "")) == x
  {
    var s := x + (if currency then " kr" else "");
    if currency {
      RemoveKrWithoutK(x, " kr");
      assert RemoveKr(" kr") == " " by {
        assert " kr"[1..] == "kr";
        assert RemoveKr("kr") == RemoveKr("kr"[2..]);
      }
      assert RemoveKr(s) == x + " ";
      RStripUnique(x + " ", |x|);
      assert (x + " ")[..|x|] == x;
    } else {
      assert s == x + "";
      RemoveKrWithoutK(x, "");
      assert RemoveKr(s) == x;
      RStripUnique(x, |x|);
      assert x[..|x|] == x;
    }
    assert RStrip(RemoveKr(s)) == x;
  }

  /** Cleaning a Swedish-formatted amount and coercing it gives back the
      number written: the dots are thousands separators, the comma is the
      decimal point, the currency suffix is ignored. */
  lemma SwedishAmountRoundTrip(negative: bool, grouped: string, frac: string, currency: bool)
    requires IsGrouped(grouped) && AllDigits(frac)
    requires |RemoveDots(grouped)| + |frac| > 0
    ensures AllDigits(RemoveDots(grouped))
    ensures ToNumeric(CleanSwedishNumeric(Text(SwedishText(negative, grouped, frac, currency))))
         == Some(FromParts(negative, RemoveDots(grouped), frac))
  {
    var whole := RemoveDots(grouped);
    GroupedDigits(grouped);
    CleanSwedishText(negative, grouped, frac, currency);
    ParsePointed(negative, whole, frac);
  }

  // ---------------------------------------------------------------------
  // The rewrite is not idempotent

  /** A text of digits holds no "k", no dot and no comma. */
  lemma DigitsOnly(s: string)
    requires AllDigits(s)
    ensures 'k' !in s && '.' !in s && ',' !in s
  {
    forall c | c in s ensures IsDigit(c) {
      var i :| 0 <= i < |s| && s[i] == c;
    }
  }

  /** Plain decimal text `whole.frac` is neither cut by "kr" removal nor by
      stripping, and carries no minus sign. */
  lemma PlainDecimalTrimmed(whole: string, frac: string)
    requires AllDigits(whole) && AllDigits(frac) && |whole| > 0
    ensures Trimmed(whole + "." + frac) == whole + "." + frac
    ensures !StartsWithMinus(whole + "." + frac)
  {
    var x := whole + "." + frac;
    DigitsOnly(whole);
    DigitsOnly(frac);
    assert 'k' !in x by {
      forall i | 0 <= i < |x| ensures x[i] != 'k' {
        if i < |whole| {
          assert x[i] == whole[i];
        } else if i > |whole| {
          assert x[i] == frac[i - |whole| - 1];
        }
      }
    }
    assert x[0] == whole[0];
    if |frac| > 0 {
      assert x[|x| - 1] == frac[|frac| - 1];
    }
    TrimmedAmount(x, false);
    assert x + "" == x;
  }

  /** Cleaning plain decimal text deletes its point. */
  lemma CleanOfPlainDecimal(whole: string, frac: string)
    requires AllDigits(whole) && AllDigits(frac) && |whole| > 0
    ensures CleanString(whole + "." + frac) == whole + frac
  {
    var x := whole + "." + frac;
    PlainDecimalTrimmed(whole, frac);
    CleanOfTrimmed(x, x);
    DigitsOnly(whole);
    DigitsOnly(frac);
    RemoveOneDot(whole, frac);
    assert ',' !in whole + frac;
    CommaToDotWithoutComma(whole + frac);
  }

  /** Cleaning twice is not cleaning once: the point the first pass writes
      for the decimal comma is deleted by the second ("1.234,56 kr" becomes
      "1234.56", then "123456"). */
  lemma CleanNotIdempotent(grouped: string, frac: string, currency: bool)
    requires IsGrouped(grouped) && AllDigits(frac) && |RemoveDots(grouped)| > 0
    ensures var once := CleanString(SwedishText(false, grouped, frac, currency));
      && once == RemoveDots(grouped) + "." + frac
      && CleanString(once) == RemoveDots(grouped) + frac
      && CleanString(once) != once
  {
    var whole := RemoveDots(grouped);
    GroupedDigits(grouped);
    var once := CleanString(SwedishText(false, grouped, frac, currency));
    CleanSwedishText(false, grouped, frac, currency);
    assert once == SignText(false) + whole + "." + frac;
    assert SignText(false) + whole == whole;
    CleanOfPlainDecimal(whole, frac);
    assert |CleanString(once)| < |once|;
  }

  /** Deleting the dot after a dot-free text. */
  lemma RemoveTrailingDot(a: string)
    requires '.' !in a
    ensures RemoveDots(a + ".") == a
  {
    RemoveDotsAppend(a, ".");
    RemoveDotsWithoutDots(a);
    assert RemoveDots(".") == [];
  }

  /** Deleting the one dot between two dot-free texts. */
  lemma RemoveOneDot(a: string, b: string)
    requires '.' !in a && '.' !in b
    ensures RemoveDots(a + "." + b) == a + b
  {
    RemoveTrailingDot(a);
    RemoveDotsAppend(a + ".", b);
    RemoveDotsWithoutDots(b);
  }

  lemma CommaToDotWithoutComma(s: string)
    requires ',' !in s
    ensures CommaToDot(s) == s
  {
  }
}
