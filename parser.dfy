/** `get_answer`: from answer text to a grid, one row per whitespace-separated token. */
module Parser {
  import opened Wrappers
  import opened Text
  import opened Grids
  import Format

  /** The text `get_answer` splits: capitalised, with a leading `Answer:` removed. */
  function Remainder(response: string): string {
    RemovePrefix(Capitalize(response), Format.Prefix)
  }

  /** The digit values of a digit token, in order. */
  function Digits(token: string): (row: seq<int>)
    requires AllDigits(token)
  {
    seq(|token|, j requires 0 <= j < |token| => DigitValue(token[j]))
  }

  /** `[int(j) for j in token]`: no row when a character is not a digit (`int` raises). */
  function RowOf(token: string): (row: Option<seq<int>>)
    ensures row.Some? <==> AllDigits(token)
    ensures row.Some? ==> (forall j :: 0 <= j < |row.value| ==> 0 <= row.value[j] <= 9) && RowText(row.value) == token
  {
    if AllDigits(token) then RowTextOfDigits(token); Some(Digits(token)) else None
  }

  /** Writing out the digit values of a digit token gives the token back. */
  lemma RowTextOfDigits(token: string)
    requires AllDigits(token)
    ensures forall j :: 0 <= j < |Digits(token)| ==> 0 <= Digits(token)[j] <= 9
    ensures RowText(Digits(token)) == token
  {
    assert forall j :: 0 <= j < |token| ==> RowText(Digits(token))[j] == token[j];
  }

  /** What `get_answer` returns: a row per token of the remainder, or None (an exception)
      when a token holds a non-digit. */
  function ParseAnswer(response: string): (r: Option<Grid>)
    ensures r.Some? <==> DigitsAndSpaces(Remainder(response))
    ensures r == Some([]) <==> AllSpace(Remainder(response))
    ensures r.Some? ==> DigitGrid(r.value)
  {
    SplitAllDigits(Remainder(response));
    SplitEmpty(Remainder(response));
    ParseTokens(Split(Remainder(response)))
  }

  /** `get_answer` fails exactly when some whitespace-separated token of the remainder
      holds a character that is not a digit. */
  lemma ParseFailsOnBadToken(response: string)
    ensures ParseAnswer(response).None? <==> !AllDigitTokens(Split(Remainder(response)))
  {
    assert ParseAnswer(response) == ParseTokens(Split(Remainder(response)));
  }

  /** The rows of a list of tokens, or None when one of them is not all digits. */
  function ParseTokens(tokens: seq<string>): (r: Option<Grid>)
    requires forall i :: 0 <= i < |tokens| ==> tokens[i] != []
    ensures r.Some? <==> AllDigitTokens(tokens)
    ensures r.Some? ==> |r.value| == |tokens| && DigitGrid(r.value)
    ensures r.Some? ==> forall i :: 0 <= i < |tokens| ==> r.value[i] == Digits(tokens[i])
    ensures r.Some? ==> RowTexts(r.value) == tokens
  {
    if AllDigitTokens(tokens) then
      var g := seq(|tokens|, i requires 0 <= i < |tokens| => Digits(tokens[i]));
      assert forall i :: 0 <= i < |tokens| ==> RowText(g[i]) == tokens[i] by {
        forall i | 0 <= i < |tokens| ensures RowText(g[i]) == tokens[i] {
          RowTextOfDigits(tokens[i]);
        }
      }
      Some(g)
    else None
  }

  /** `get_answer`, step by step: capitalise, strip the prefix, split, then convert
      token after token, giving up at the first token that is not all digits. */
  method GetAnswer(response: string) returns (result: Option<Grid>)
    ensures result == ParseAnswer(response)
  {
    var text := Capitalize(response);
    text := RemovePrefix(text, Format.Prefix);
    var tokens := Split(text);
    var rows: Grid := [];
    for i := 0 to |tokens|
      invariant |rows| == i
      invariant forall k :: 0 <= k < i ==> AllDigits(tokens[k]) && rows[k] == Digits(tokens[k])
    {
      var row := RowOf(tokens[i]);
      if row.None? {
        return None;
      }
      rows := rows + [row.value];
    }
    assert AllDigitTokens(tokens);
    assert rows == ParseTokens(tokens).value;
    return Some(rows);
  }

  /** The text of one row: its digits written out. */
  function RowText(row: seq<int>): (t: string)
    requires forall j :: 0 <= j < |row| ==> 0 <= row[j] <= 9
  {
    seq(|row|, j requires 0 <= j < |row| => DigitChar(row[j]))
  }

  function RowTexts(g: Grid): seq<string>
    requires DigitGrid(g)
  {
    seq(|g|, i requires 0 <= i < |g| => RowText(g[i]))
  }

  /** A grid written as an answer: `Answer:`, then each row after its own whitespace separator. */
  function Encode(g: Grid, seps: seq<string>): string
    requires DigitGrid(g) && |seps| == |g|
  {
    Format.Prefix + Interleave(seps, RowTexts(g))
  }

  /** Capitalising depends on the letters only up to case. */
  lemma CapitalizeIgnoresCase(p: string, q: string)
    requires |p| == |q| && LowerAll(p) == LowerAll(q)
    ensures Capitalize(p) == Capitalize(q)
  {
    if p != [] {
      assert ToLower(p[0]) == LowerAll(p)[0] == ToLower(q[0]);
      assert ToUpper(p[0]) == ToUpper(q[0]);
      assert LowerAll(p[1..]) == LowerAll(p)[1..] == LowerAll(q)[1..] == LowerAll(q[1..]);
    }
  }

  lemma CapitalizePrefix()
    ensures Capitalize(Format.Prefix) == Format.Prefix
  {
    assert Format.Prefix[1..] == "nswer:";
    assert LowerAll("nswer:") == "nswer:";
  }

  lemma LowerDigitsAndSpaces(x: string)
    requires DigitsAndSpaces(x)
    ensures LowerAll(x) == x
  {
  }

  /** After a leading `Answer:`, the remainder is the rest in lower case. */
  lemma RemainderAfterPrefix(x: string)
    ensures Remainder(Format.Prefix + x) == LowerAll(x)
  {
    CapitalizeAppend(Format.Prefix, x);
    CapitalizePrefix();
  }

  /** After any spelling of `answer:` up to case, the rest parses as after `Answer:`. */
  lemma PrefixIgnoresCase(p: string, rest: string)
    requires |p| == |Format.Prefix| && LowerAll(p) == LowerAll(Format.Prefix)
    ensures ParseAnswer(p + rest) == ParseAnswer(Format.Prefix + rest)
  {
    CapitalizeAppend(p, rest);
    CapitalizeAppend(Format.Prefix, rest);
    CapitalizeIgnoresCase(p, Format.Prefix);
    assert Remainder(p + rest) == Remainder(Format.Prefix + rest);
  }

  lemma RemainderWithoutLetter(t: string)
    requires t == [] || (!IsLower(t[0]) && !IsUpper(t[0]))
    ensures Remainder(t) == LowerAll(t)
  {
    if t != [] {
      assert [t[0]] + t[1..] == t;
      CapitalizeUnfold([t[0]], t[1..]);
      LowerAllAppend([t[0]], t[1..]);
      assert Capitalize(t) == LowerAll(t);
      assert LowerAll(t)[0] == t[0] != Format.Prefix[0];
    }
  }

  /** A text that does not start with a letter parses the same with or without `Answer: ` in front. */
  lemma PrefixOptional(t: string)
    requires t == [] || (!IsLower(t[0]) && !IsUpper(t[0]))
    ensures ParseAnswer(t) == ParseAnswer(Format.Prefix + " " + t)
  {
    RemainderWithoutLetter(t);
    assert Format.Prefix + " " + t == Format.Prefix + (" " + t);
    RemainderAfterPrefix(" " + t);
    LowerAllAppend(" ", t);
    assert LowerAll(" ") == " ";
    SplitIgnoresLeadingSpace(" ", LowerAll(t));
  }

  lemma {:induction false} InterleaveAlphabet(seps: seq<string>, words: seq<string>)
    requires |seps| == |words| && Separators(seps)
    requires forall i :: 0 <= i < |words| ==> AllDigits(words[i])
    ensures DigitsAndSpaces(Interleave(seps, words))
    decreases |words|
  {
    if words != [] {
      InterleaveAlphabet(seps[1..], words[1..]);
      var rest := Interleave(seps[1..], words[1..]);
      DigitsAndSpacesAppend(words[0], rest);
      DigitsAndSpacesAppend(seps[0], words[0] + rest);
      assert seps[0] + words[0] + rest == seps[0] + (words[0] + rest);
    }
  }

  lemma DigitsOfRowText(row: seq<int>)
    requires forall j :: 0 <= j < |row| ==> 0 <= row[j] <= 9
    ensures AllDigits(RowText(row)) && Digits(RowText(row)) == row
  {
  }

  /** Parsing an encoded grid gives back the grid: one row per token, its digits in order. */
  lemma ParseEncode(g: Grid, seps: seq<string>)
    requires DigitGrid(g) && |seps| == |g| && Separators(seps)
    ensures ParseAnswer(Encode(g, seps)) == Some(g)
  {
    var words := RowTexts(g);
    var body := Interleave(seps, words);
    forall i | 0 <= i < |g| ensures AllDigits(words[i]) && Digits(words[i]) == g[i] && words[i] != [] {
      DigitsOfRowText(g[i]);
    }
    assert Words(words);
    InterleaveAlphabet(seps, words);
    LowerDigitsAndSpaces(body);
    RemainderAfterPrefix(body);
    SplitInterleave(seps, words);
    var r := ParseAnswer(Encode(g, seps));
    assert r.Some?;
    assert r.value == g;
  }

  lemma EncodeExample()
    ensures Encode([[1, 2], [3, 4]], [" ", " "]) == "Answer: 12 34"
  {
    var g: Grid := [[1, 2], [3, 4]];
    assert RowText(g[0]) == "12";
    assert RowText(g[1]) == "34";
    assert RowTexts(g) == ["12", "34"];
    assert Interleave([" "], ["34"]) == " 34";
    assert Interleave([" ", " "], ["12", "34"]) == " 12 34";
  }

  /** `"Answer: 12 34"` parses to the grid `[[1, 2], [3, 4]]`. */
  lemma ParseExample()
    ensures ParseAnswer("Answer: 12 34") == Some([[1, 2], [3, 4]])
  {
    ParseEncode([[1, 2], [3, 4]], [" ", " "]);
    EncodeExample();
  }

  /** A response that passes the format check always parses, to a grid with at least one row. */
  lemma FormatImpliesParse(s: string)
    requires Format.FormatReward(s) == 1.0
    ensures ParseAnswer(s).Some? && ParseAnswer(s) != Some([])
  {
    var tail := s[|Format.Prefix|..];
    assert s == Format.Prefix + tail;
    LowerDigitsAndSpaces(tail);
    RemainderAfterPrefix(tail);
    var i :| 0 <= i < |tail| && IsDigit(tail[i]);
    assert !AllSpace(tail);
  }
}
