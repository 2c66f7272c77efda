/** `parse_agent`: splits an Agent field such as
    "Bajram Krushevci (10190035)" into the agent's name and numeric id.
    The source matches `^(.*)\s+\((\d+)\)\s*$`; `MatchAgent` below is a
    hand-written matcher proved equivalent to that pattern. */
module Agents {
  import opened Wrappers
  import opened Text
  import opened Frames

  /** A parsed Agent field: the stripped name and the id. */
  datatype Agent = Agent(name: string, id: nat)

  /** Start of the run of digits that ends `s`. */
  function DigitRunStart(s: string): (k: nat)
    ensures k <= |s| && AllDigits(s[k..])
    ensures k == 0 || !IsDigit(s[k - 1])
    decreases |s|
  {
    if s != [] && IsDigit(s[|s| - 1]) then
      var k := DigitRunStart(s[..|s| - 1]);
      assert s[k..] == s[..|s| - 1][k..] + [s[|s| - 1]];
      k
    else
      |s|
  }

  lemma {:induction false} DigitRunStartUnique(s: string, m: nat)
    requires m <= |s| && AllDigits(s[m..])
    requires m == 0 || !IsDigit(s[m - 1])
    ensures DigitRunStart(s) == m
    decreases |s|
  {
    if m < |s| {
      assert s[m..][|s| - 1 - m] == s[|s| - 1];
      var t := s[..|s| - 1];
      assert t[m..] == s[m..|s| - 1];
      DigitRunStartUnique(t, m);
    }
  }

  /** The tail of the pattern, `\((\d+)\)\s*$`, matched by hand: trailing
      whitespace is dropped, the rest must end in ")", a run of ASCII digits
      and "(". Gives the text before the "(" and the digits. */
  function SplitId(s: string): (r: Option<(string, string)>)
    ensures r.Some? ==> AllDigits(r.value.1) && |r.value.1| > 0
  {
    var t := RStrip(s);
    if t == [] || t[|t| - 1] != ')' then None
    else
      var body := t[..|t| - 1];
      var k := DigitRunStart(body);
      if k == |body| || k == 0 || body[k - 1] != '(' then None
      else Some((body[..k - 1], body[k..]))
  }

  /** The whole pattern: after `SplitId`, at least one whitespace character
      must precede the "(" and the text before that whitespace may not
      contain a line break (`.` does not match one); the name is the text
      before the "(", stripped. As `.*` is greedy, the last parenthesised
      number is the id. */
  function MatchAgent(s: string): Option<Agent>
  {
    match SplitId(s)
    case None => None
    case Some((before, digits)) =>
      var head := RStrip(before);
      if |head| == |before| || '\n' in head then None
      else Some(Agent(Strip(before), DigitsValue(digits)))
  }

  /** `parse_agent`: missing values and non-strings give `(None, None)`,
      here `None`. */
  function ParseAgent(v: Value): (r: Option<Agent>)
    ensures !v.Str? ==> r.None?
  {
    match v
    case Str(s) => MatchAgent(s)
    case _ => None
  }

  // ---------------------------------------------------------------------
  // The matcher agrees with the regular expression

  /** `^(.*)\s+\((\d+)\)\s*$` matches `s` with group 1 = `s[..j]` and
      group 2 = `s[p + 1..q]`: `s[j..p]` is the `\s+`, `s[p]` the "(",
      `s[q]` the ")" and `s[q + 1..]` the final `\s*`. */
  ghost predicate IsMatch(s: string, j: nat, p: nat, q: nat) {
    && j < p && p + 1 < q < |s|
    && (forall i :: 0 <= i < j ==> s[i] != '\n')
    && (forall i :: j <= i < p ==> IsSpace(s[i]))
    && s[p] == '('
    && (forall i :: p < i < q ==> IsDigit(s[i]))
    && s[q] == ')'
    && (forall i :: q < i < |s| ==> IsSpace(s[i]))
  }

  ghost predicate Matches(s: string) {
    exists j: nat, p: nat, q: nat :: IsMatch(s, j, p, q)
  }

  /** `SplitId` finds the "(" at `p` and the ")" at `q` whenever the tail
      of the pattern matches there. */
  lemma SplitIdOf(s: string, p: nat, q: nat)
    requires p + 1 < q < |s| && s[p] == '(' && s[q] == ')'
    requires forall i :: p < i < q ==> IsDigit(s[i])
    requires forall i :: q < i < |s| ==> IsSpace(s[i])
    ensures SplitId(s) == Some((s[..p], s[p + 1..q]))
  {
    AllSpaceSlice(s, q + 1, |s|);
    assert s[q + 1..|s|] == s[q + 1..];
    RStripUnique(s, q + 1);
    var body := s[..q];
    assert RStrip(s)[..q] == body;
    AllDigitsSlice(s, p + 1, q);
    assert body[p + 1..] == s[p + 1..q];
    DigitRunStartUnique(body, p + 1);
    assert body[..p] == s[..p];
  }

  /** Conversely, what `SplitId` finds is such a tail. */
  lemma SplitIdSound(s: string)
    requires SplitId(s).Some?
    ensures var p := |SplitId(s).value.0|;
      var q := p + 1 + |SplitId(s).value.1|;
      && q < |s| && s[p] == '(' && s[q] == ')'
      && s[..p] == SplitId(s).value.0 && s[p + 1..q] == SplitId(s).value.1
      && (forall i :: q < i < |s| ==> IsSpace(s[i]))
  {
    var t := RStrip(s);
    var body := t[..|t| - 1];
    var k := DigitRunStart(body);
    forall i | |t| <= i < |s| ensures IsSpace(s[i]) {
      assert s[|t|..][i - |t|] == s[i];
    }
  }

  /** Whenever the pattern matches, the matcher finds the stripped group 1
      as the name and group 2 as the id. All ways of splitting the name from
      the whitespace give the same stripped name, so the greedy choice of
      the regular-expression engine does not matter. */
  lemma MatchComplete(s: string, j: nat, p: nat, q: nat)
    requires IsMatch(s, j, p, q)
    ensures AllDigits(s[p + 1..q])
    ensures MatchAgent(s) == Some(Agent(Strip(s[..j]), DigitsValue(s[p + 1..q])))
  {
    SplitIdOf(s, p, q);
    AllDigitsSlice(s, p + 1, q);
    AllSpaceSlice(s, j, p);
    RStripThroughSpaces(s, j, p);
    var before := s[..p];
    var head := RStrip(s[..j]);
    assert RStrip(before) == head;
    assert |head| < |before|;
    assert head == s[..j][..|head|];
    assert '\n' !in head by {
      forall i | 0 <= i < |head| ensures head[i] != '\n' {
        assert head[i] == s[i];
      }
    }
    assert Strip(before) == Strip(s[..j]);
    assert MatchAgent(s) == Some(Agent(Strip(before), DigitsValue(s[p + 1..q])));
  }

  /** The positions at which the matcher's success shows a match: the end
      of the stripped name, the "(" and the ")". */
  lemma MatchWitness(s: string)
    requires MatchAgent(s).Some?
    ensures var before := SplitId(s).value.0;
      var p := |before|;
      IsMatch(s, |RStrip(before)|, p, p + 1 + |SplitId(s).value.1|)
  {
    SplitShape(s);
    HeadShape(s);
  }

  /** Around the id: the parentheses, the digits between them and the
      whitespace after them. */
  lemma SplitShape(s: string)
    requires SplitId(s).Some?
    ensures var p := |SplitId(s).value.0|;
      var q := p + 1 + |SplitId(s).value.1|;
      && p + 1 < q < |s| && s[p] == '(' && s[q] == ')'
      && (forall i :: q < i < |s| ==> IsSpace(s[i]))
      && (forall i :: p < i < q ==> IsDigit(s[i]))
  {
    var p := |SplitId(s).value.0|;
    var q := p + 1 + |SplitId(s).value.1|;
    SplitIdSound(s);
    forall i | p < i < q ensures IsDigit(s[i]) {
      assert s[p + 1..q][i - p - 1] == s[i];
    }
  }

  /** Before the id: a name without line breaks, then whitespace. */
  lemma HeadShape(s: string)
    requires MatchAgent(s).Some?
    ensures var before := SplitId(s).value.0;
      var j := |RStrip(before)|;
      && j < |before|
      && (forall i :: j <= i < |before| ==> IsSpace(s[i]))
      && (forall i :: 0 <= i < j ==> s[i] != '\n')
  {
    var before := SplitId(s).value.0;
    var p := |before|;
    var head := RStrip(before);
    var j := |head|;
    assert s[..p] == before by {
      SplitIdSound(s);
    }
    assert '\n' !in head;
    RStripAt(before);
    forall i | j <= i < p ensures IsSpace(s[i]) {
      assert before[i] == s[i];
    }
    forall i | 0 <= i < j ensures s[i] != '\n' {
      assert head[i] == before[i] == s[i];
      assert head[i] in head;
    }
  }

  /** Whenever the matcher succeeds, the pattern matches; by
      `MatchComplete`, its result is then read off the groups of any match. */
  lemma MatchSound(s: string)
    requires MatchAgent(s).Some?
    ensures Matches(s)
  {
    var before := SplitId(s).value.0;
    var p := |before|;
    var q := p + 1 + |SplitId(s).value.1|;
    var j := |RStrip(before)|;
    MatchWitness(s);
  }

  /** `parse_agent` succeeds on a string exactly when the pattern matches it. */
  lemma ParseAgentIffMatches(s: string)
    ensures ParseAgent(Str(s)).Some? <==> Matches(s)
  {
    assert ParseAgent(Str(s)) == MatchAgent(s);
    if MatchAgent(s).Some? {
      MatchSound(s);
    }
    if Matches(s) {
      var j: nat, p: nat, q: nat :| IsMatch(s, j, p, q);
      MatchComplete(s, j, p, q);
    }
  }

  lemma SplitOfFormatted(name: string, digits: string)
    requires AllDigits(digits) && |digits| > 0
    ensures SplitId(name + " (" + digits + ")") == Some((name + " ", digits))
  {
    var s := name + " (" + digits + ")";
    var p := |name| + 1;
    var q := p + 1 + |digits|;
    forall i | p < i < q ensures IsDigit(s[i]) {
      assert s[i] == digits[i - p - 1];
    }
    SplitIdOf(s, p, q);
    assert s[..p] == name + " ";
    assert s[p + 1..q] == digits;
  }

  lemma RStripOfSpaced(name: string)
    ensures RStrip(name + " ") == RStrip(name)
  {
    var before := name + " ";
    assert before[..|name|] == name;
    AllSpaceSlice(before, |name|, |name| + 1);
    RStripThroughSpaces(before, |name|, |name| + 1);
    assert before[..|name| + 1] == before;
  }

  /** Round trip: a name followed by " (id)" is parsed back into the
      stripped name and the id, provided the name has no line break
      before its trailing whitespace. */
  lemma ParseAgentRoundTrip(name: string, id: nat)
    requires '\n' !in RStrip(name)
    ensures ParseAgent(Str(name + " (" + NatToString(id) + ")")) == Some(Agent(Strip(name), id))
  {
    var digits := NatToString(id);
    var s := name + " (" + digits + ")";
    assert ParseAgent(Str(s)) == MatchAgent(s);
    var before := name + " ";
    SplitOfFormatted(name, digits);
    RStripOfSpaced(name);
    assert |RStrip(before)| < |before| && '\n' !in RStrip(before);
    assert MatchAgent(s) == Some(Agent(Strip(before), DigitsValue(digits)));
    assert Strip(before) == Strip(name);
    NatToStringValue(id);
  }

  // ---------------------------------------------------------------------
  // Inputs that do not parse

  /** No whitespace before the "(": "Name(5)". */
  lemma NoSpaceBeforeParen(s: string)
    requires s == "Name(5)"
    ensures ParseAgent(Str(s)) == None
  {
    assert !IsSpace(')');
    RStripUnique(s, |s|);
    assert s[..|s|] == s;
    var body := s[..|s| - 1];
    assert body == "Name(5";
    DigitRunStartUnique(body, 5);
    assert body[..4] == "Name";
    RStripUnique("Name", 4);
    assert "Name"[..4] == "Name";
  }

  /** No digits inside the parentheses: "Name (x)". */
  lemma NoDigitsInParens(s: string)
    requires s == "Name (x)"
    ensures ParseAgent(Str(s)) == None
  {
    RStripUnique(s, |s|);
    assert s[..|s|] == s;
    var body := s[..|s| - 1];
    assert body == "Name (x";
    DigitRunStartUnique(body, |body|);
  }

  /** An empty name is accepted: " (5)" gives the name "". */
  lemma EmptyName(s: string)
    requires s == " (5)"
    ensures ParseAgent(Str(s)) == Some(Agent("", 5))
  {
    assert s == "" + " (" + NatToString(5) + ")";
    ParseAgentRoundTrip("", 5);
  }
}
