/** The format reward: does the normalised response read exactly
    `Answer:` followed by whitespace-separated digit groups? */
module Format {
  import opened Text

  /** The literal that opens a well-formed answer; matched case-sensitively here. */
  const Prefix: string := "Answer:"

  /** The regular-expression tail `(\d+\s*)+`, matched greedily: a run of
      digits, the whitespace after it, and then the end or another group. */
  predicate Groups(t: string)
    decreases |t|
  {
    t != [] && IsDigit(t[0]) &&
    var u := t[Span(t, IsDigit)..];
    var v := u[Span(u, IsSpace)..];
    v == [] || Groups(v)
  }

  /** `re.fullmatch(r'^Answer:\s*(\d+\s*)+$', s, re.DOTALL)` succeeds. */
  predicate FormatMatches(s: string) {
    Prefix <= s &&
    var t := s[|Prefix|..];
    Groups(t[Span(t, IsSpace)..])
  }

  /** `format_reward`: 1.0 for a well-formed answer, 0.0 otherwise. */
  function FormatReward(s: string): (r: real)
    ensures r == 1.0 <==> Prefix <= s && DigitsAndSpaces(s[|Prefix|..]) && HasDigit(s[|Prefix|..])
    ensures r == 0.0 <==> !(Prefix <= s && DigitsAndSpaces(s[|Prefix|..]) && HasDigit(s[|Prefix|..]))
  {
    FormatMatchesIff(s);
    if FormatMatches(s) then 1.0 else 0.0
  }

  /** One group: `t` is a digit run, then a whitespace run, then `v`. */
  lemma GroupsStep(t: string, d: nat, e: nat)
    requires t != [] && IsDigit(t[0])
    requires d == Span(t, IsDigit) && e == Span(t[d..], IsSpace)
    ensures Groups(t) <==> t[d..][e..] == [] || Groups(t[d..][e..])
  {
  }

  lemma GroupAlphabet(t: string, d: nat, e: nat)
    requires d == Span(t, IsDigit) && e == Span(t[d..], IsSpace)
    ensures DigitsAndSpaces(t) <==> DigitsAndSpaces(t[d..][e..])
  {
    var u := t[d..];
    assert t == t[..d] + u;
    DigitsAndSpacesAppend(t[..d], u);
    assert u == u[..e] + u[e..];
    DigitsAndSpacesAppend(u[..e], u[e..]);
  }

  /** The groups are exactly the texts of digits and whitespace that start with a digit. */
  lemma {:induction false} GroupsIff(t: string)
    ensures Groups(t) <==> t != [] && IsDigit(t[0]) && DigitsAndSpaces(t)
    decreases |t|
  {
    if t != [] && IsDigit(t[0]) {
      var d := Span(t, IsDigit);
      var e := Span(t[d..], IsSpace);
      var v := t[d..][e..];
      GroupsStep(t, d, e);
      GroupAlphabet(t, d, e);
      GroupsIff(v);
      if v != [] {
        if e == 0 {
          assert v[0] == t[d];
          assert !IsDigit(v[0]) && !IsSpace(v[0]);
        } else {
          assert !IsSpace(v[0]);
        }
      }
    }
  }

  lemma LeadingSpaceAlphabet(t: string, w: nat)
    requires w == Span(t, IsSpace)
    ensures DigitsAndSpaces(t) <==> DigitsAndSpaces(t[w..])
    ensures HasDigit(t) <==> HasDigit(t[w..])
  {
    DigitsAndSpacesCut(t, w);
    assert DigitsAndSpaces(t[..w]);
    if HasDigit(t) {
      var i :| 0 <= i < |t| && IsDigit(t[i]);
      assert i >= w;
      assert t[w..][i - w] == t[i];
    }
    if HasDigit(t[w..]) {
      var i :| 0 <= i < |t[w..]| && IsDigit(t[w..][i]);
      assert t[w + i] == t[w..][i];
    }
  }

  /** The anchored pattern accepts exactly `Answer:` followed by a non-empty mix of
      digits and whitespace holding at least one digit. */
  lemma FormatMatchesIff(s: string)
    ensures FormatMatches(s) <==> Prefix <= s && DigitsAndSpaces(s[|Prefix|..]) && HasDigit(s[|Prefix|..])
  {
    if Prefix <= s {
      var t := s[|Prefix|..];
      var w := Span(t, IsSpace);
      var x := t[w..];
      GroupsIff(x);
      LeadingSpaceAlphabet(t, w);
      if x != [] {
        assert !IsSpace(x[0]);
        if DigitsAndSpaces(x) { assert IsDigit(x[0]); assert HasDigit(x); }
      }
      if HasDigit(x) { assert x != []; }
    }
  }
}
