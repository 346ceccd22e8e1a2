/** Character classes and the Python string operations the parser relies on
    (`str.capitalize`, `str.removeprefix`, `str.split`), over ASCII text. */
module Text {

  /** ASCII whitespace as both `str.split()` and the regular-expression class
      `\s` recognise it: space, TAB through CR (9-13) and FS through US (28-31). */
  predicate IsSpace(c: char) {
    c == ' ' || 9 <= c as int <= 13 || 28 <= c as int <= 31
  }

  predicate NotSpace(c: char) {
    !IsSpace(c)
  }

  predicate IsDigit(c: char) {
    '0' <= c <= '9'
  }

  predicate IsUpper(c: char) {
    'A' <= c <= 'Z'
  }

  predicate IsLower(c: char) {
    'a' <= c <= 'z'
  }

  predicate AllSpace(s: string) {
    forall i :: 0 <= i < |s| ==> IsSpace(s[i])
  }

  predicate AllDigits(s: string) {
    forall i :: 0 <= i < |s| ==> IsDigit(s[i])
  }

  /** Only digits and whitespace: the alphabet of a grid answer. */
  predicate DigitsAndSpaces(s: string) {
    forall i :: 0 <= i < |s| ==> IsDigit(s[i]) || IsSpace(s[i])
  }

  predicate HasDigit(s: string) {
    exists i :: 0 <= i < |s| && IsDigit(s[i])
  }

  /** The integer a digit character stands for, as `int(c)` gives it. */
  function DigitValue(c: char): (d: int)
    requires IsDigit(c)
    ensures 0 <= d <= 9
  {
    c as int - '0' as int
  }

  /** The digit character for a value in 0..9, inverse of DigitValue. */
  function DigitChar(d: int): (c: char)
    requires 0 <= d <= 9
    ensures IsDigit(c) && DigitValue(c) == d
  {
    ('0' as int + d) as char
  }

  function ToUpper(c: char): char {
    if IsLower(c) then (c as int - 32) as char else c
  }

  function ToLower(c: char): char {
    if IsUpper(c) then (c as int + 32) as char else c
  }

  function LowerAll(s: string): string {
    seq(|s|, i requires 0 <= i < |s| => ToLower(s[i]))
  }

  /** `str.capitalize()`: the first character in upper case, the rest in lower case. */
  function Capitalize(s: string): string {
    if s == [] then [] else [ToUpper(s[0])] + LowerAll(s[1..])
  }

  lemma LowerAllAppend(a: string, b: string)
    ensures LowerAll(a + b) == LowerAll(a) + LowerAll(b)
  {
    var l, r := LowerAll(a + b), LowerAll(a) + LowerAll(b);
    assert |l| == |r|;
    forall i | 0 <= i < |l| ensures l[i] == r[i] {
      if i < |a| { assert (a + b)[i] == a[i]; } else { assert (a + b)[i] == b[i - |a|]; }
    }
  }

  lemma CapitalizeUnfold(x: string, rest: string)
    requires x != []
    ensures Capitalize(x + rest) == [ToUpper(x[0])] + LowerAll(x[1..] + rest)
  {
    assert (x + rest)[0] == x[0];
    assert (x + rest)[1..] == x[1..] + rest;
  }

  /** Capitalising a text with a non-empty head lower-cases the whole tail. */
  lemma CapitalizeAppend(x: string, rest: string)
    requires x != []
    ensures Capitalize(x + rest) == Capitalize(x) + LowerAll(rest)
  {
    CapitalizeUnfold(x, rest);
    LowerAllAppend(x[1..], rest);
  }

  /** `str.removeprefix(p)`. */
  function RemovePrefix(s: string, p: string): string {
    if p <= s then s[|p|..] else s
  }

  /** Length of the longest prefix of `s` whose characters all satisfy `p`. */
  function Span(s: string, p: char -> bool): (n: nat)
    ensures n <= |s|
    ensures forall i :: 0 <= i < n ==> p(s[i])
    ensures n < |s| ==> !p(s[n])
  {
    if s != [] && p(s[0]) then 1 + Span(s[1..], p) else 0
  }

  /** A list of words: non-empty runs of non-whitespace. */
  predicate Words(tokens: seq<string>) {
    && (forall i :: 0 <= i < |tokens| ==> tokens[i] != [] && !IsSpace(tokens[i][0]))
    && (forall i, j :: 0 <= i < |tokens| && 0 <= j < |tokens[i]| ==> !IsSpace(tokens[i][j]))
  }

  /** A word in front of a list of words gives a list of words. */
  lemma WordsCons(word: string, tail: seq<string>)
    requires word != [] && forall j :: 0 <= j < |word| ==> !IsSpace(word[j])
    requires Words(tail)
    ensures Words([word] + tail)
  {
    var all := [word] + tail;
    forall i | 0 <= i < |all|
      ensures all[i] == if i == 0 then word else tail[i - 1]
    {
    }
  }

  /** `str.split()` with no separator: the maximal runs of non-whitespace, in order. */
  function Split(s: string): (tokens: seq<string>)
    ensures Words(tokens)
    decreases |s|
  {
    var k := Span(s, IsSpace);
    if k == |s| then []
    else
      var n := Span(s[k..], NotSpace);
      WordsCons(s[k..][..n], Split(s[k..][n..]));
      [s[k..][..n]] + Split(s[k..][n..])
  }

  /** Text made of words, each preceded by its own non-empty whitespace separator. */
  function Interleave(seps: seq<string>, words: seq<string>): string
    requires |seps| == |words|
    decreases |words|
  {
    if words == [] then [] else seps[0] + words[0] + Interleave(seps[1..], words[1..])
  }

  lemma {:induction false} SpanAppend(a: string, b: string, p: char -> bool)
    requires forall i :: 0 <= i < |a| ==> p(a[i])
    requires b == [] || !p(b[0])
    ensures Span(a + b, p) == |a|
    decreases |a|
  {
    if a != [] {
      assert (a + b)[1..] == a[1..] + b;
      SpanAppend(a[1..], b, p);
    }
  }

  /** Whitespace in front of a text does not change how it splits. */
  lemma {:induction false} SplitIgnoresLeadingSpace(w: string, s: string)
    requires AllSpace(w)
    ensures Split(w + s) == Split(s)
  {
    var k := Span(s, IsSpace);
    SpanAppend(w + s[..k], s[k..], IsSpace);
    assert w + s == (w + s[..k]) + s[k..];
    assert (w + s)[Span(w + s, IsSpace)..] == s[k..];
  }

  /** Non-empty whitespace separators. */
  predicate Separators(seps: seq<string>) {
    forall i :: 0 <= i < |seps| ==> seps[i] != [] && AllSpace(seps[i])
  }

  /** Splitting the words back out of an interleaving recovers them exactly. */
  lemma {:induction false} SplitInterleave(seps: seq<string>, words: seq<string>)
    requires |seps| == |words| && Separators(seps) && Words(words)
    ensures Split(Interleave(seps, words)) == words
    decreases |words|
  {
    if words == [] {
      assert Span([], IsSpace) == 0;
    } else {
      SeparatorsTail(seps);
      InterleaveStart(seps[1..], words[1..]);
      SplitInterleaveStep(seps[0], words[0], Interleave(seps[1..], words[1..]));
      WordsTail(words);
      SplitInterleave(seps[1..], words[1..]);
    }
  }

  lemma SeparatorsTail(seps: seq<string>)
    requires seps != [] && Separators(seps)
    ensures Separators(seps[1..])
  {
    forall i | 0 <= i < |seps| - 1 ensures seps[1..][i] == seps[i + 1] { }
  }

  lemma WordsTail(words: seq<string>)
    requires words != [] && Words(words)
    ensures Words(words[1..])
  {
    forall i | 0 <= i < |words| - 1 ensures words[1..][i] == words[i + 1] { }
  }

  /** An interleaving is empty or starts with whitespace. */
  lemma InterleaveStart(seps: seq<string>, words: seq<string>)
    requires |seps| == |words| && Separators(seps)
    ensures Interleave(seps, words) == [] || IsSpace(Interleave(seps, words)[0])
  {
    if words != [] {
      assert Interleave(seps, words) == seps[0] + (words[0] + Interleave(seps[1..], words[1..]));
      assert IsSpace(seps[0][0]);
    }
  }

  /** One separator and one word in front of a text that starts with whitespace or is empty. */
  lemma SplitInterleaveStep(sep: string, word: string, rest: string)
    requires sep != [] && AllSpace(sep)
    requires word != [] && forall j :: 0 <= j < |word| ==> !IsSpace(word[j])
    requires rest == [] || IsSpace(rest[0])
    ensures Split(sep + word + rest) == [word] + Split(rest)
  {
    var s := sep + word + rest;
    SpanAppend(sep, word + rest, IsSpace);
    assert s == sep + (word + rest);
    var k := |sep|;
    assert s[k..] == word + rest;
    SpanAppend(word, rest, NotSpace);
    var n := |word|;
    SplitStep(s, k, n);
    assert s[k..][..n] == word;
    assert s[k..][n..] == rest;
  }

  lemma DigitsAndSpacesAppend(a: string, b: string)
    ensures DigitsAndSpaces(a + b) <==> DigitsAndSpaces(a) && DigitsAndSpaces(b)
  {
    if DigitsAndSpaces(a + b) {
      forall i | 0 <= i < |a| ensures IsDigit(a[i]) || IsSpace(a[i]) {
        assert a[i] == (a + b)[i];
      }
      forall i | 0 <= i < |b| ensures IsDigit(b[i]) || IsSpace(b[i]) {
        assert b[i] == (a + b)[|a| + i];
      }
    }
  }

  predicate AllDigitTokens(tokens: seq<string>) {
    forall i :: 0 <= i < |tokens| ==> AllDigits(tokens[i])
  }

  /** One step of `Split`: skip leading whitespace, then cut off one word. */
  lemma SplitStep(s: string, k: nat, n: nat)
    requires k == Span(s, IsSpace) && k < |s| && n == Span(s[k..], NotSpace)
    ensures Split(s) == [s[k..][..n]] + Split(s[k..][n..])
  {
  }

  /** A text has the grid alphabet exactly when both pieces of a cut do. */
  lemma DigitsAndSpacesCut(s: string, k: nat)
    requires k <= |s|
    ensures DigitsAndSpaces(s) <==> DigitsAndSpaces(s[..k]) && DigitsAndSpaces(s[k..])
  {
    if DigitsAndSpaces(s[..k]) && DigitsAndSpaces(s[k..]) {
      forall i | 0 <= i < |s| ensures IsDigit(s[i]) || IsSpace(s[i]) {
        if i < k {
          assert s[i] == s[..k][i];
        } else {
          assert s[i] == s[k..][i - k];
        }
      }
    }
  }

  /** The alphabet check of one `Split` step: the skipped whitespace is harmless, the word must be digits. */
  lemma StepDigitsAndSpaces(s: string, k: nat, n: nat)
    requires k == Span(s, IsSpace) && k < |s| && n == Span(s[k..], NotSpace)
    ensures DigitsAndSpaces(s) <==> AllDigits(s[k..][..n]) && DigitsAndSpaces(s[k..][n..])
  {
    DigitsAndSpacesCut(s, k);
    assert DigitsAndSpaces(s[..k]);
    DigitsAndSpacesCut(s[k..], n);
    var word := s[k..][..n];
    assert forall j :: 0 <= j < |word| ==> NotSpace(word[j]);
    assert DigitsAndSpaces(word) <==> AllDigits(word);
  }

  lemma AllDigitTokensCons(word: string, tail: seq<string>)
    ensures AllDigitTokens([word] + tail) <==> AllDigits(word) && AllDigitTokens(tail)
  {
    var all := [word] + tail;
    assert all[0] == word;
    assert forall i :: 0 <= i < |tail| ==> all[i + 1] == tail[i];
    if AllDigits(word) && AllDigitTokens(tail) {
      forall i | 0 <= i < |all| ensures AllDigits(all[i]) {
        if i > 0 { assert all[i] == tail[i - 1]; }
      }
    }
  }

  /** Every token is a digit string exactly when the text holds only digits and whitespace. */
  lemma {:induction false} SplitAllDigits(s: string)
    ensures AllDigitTokens(Split(s)) <==> DigitsAndSpaces(s)
    decreases |s|
  {
    var k := Span(s, IsSpace);
    if k < |s| {
      var n := Span(s[k..], NotSpace);
      var word, u := s[k..][..n], s[k..][n..];
      StepDigitsAndSpaces(s, k, n);
      SplitStep(s, k, n);
      SplitAllDigits(u);
      AllDigitTokensCons(word, Split(u));
    } else {
      assert s[k..] == [];
    }
  }

  /** A text splits into no tokens at all exactly when it is all whitespace. */
  lemma SplitEmpty(s: string)
    ensures Split(s) == [] <==> AllSpace(s)
  {
    var k := Span(s, IsSpace);
    if k < |s| {
      assert !IsSpace(s[k]);
      assert s[k..] != [];
    } else {
      assert s[k..] == [];
    }
  }
}
