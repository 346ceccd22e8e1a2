/** The text normaliser applied to every response before it is checked and
    parsed: whitespace next to `<`, `>` or `/` is removed. */
module Normalizer {
  import opened Text

  /** The characters whose neighbouring whitespace is removed. */
  predicate IsMarker(c: char) {
    c == '<' || c == '>' || c == '/'
  }

  /** `re.sub(r"\s*(<|>|/)\s*", r"\1", s)`, following the engine's left-to-right
      scan: a whitespace run followed by a marker is a match, and so is the
      whitespace run after that marker; every other character is copied. */
  function Normalize(s: string): string
    decreases |s|
  {
    if s == [] then []
    else
      var k := Span(s, IsSpace);
      if k < |s| && IsMarker(s[k]) then
        var rest := s[k + 1..];
        [s[k]] + Normalize(rest[Span(rest, IsSpace)..])
      else if k == 0 then [s[0]] + Normalize(s[1..])
      else s[..k] + Normalize(s[k..])
  }

  /** A whitespace character directly next to a marker. */
  predicate Clash(c: char, d: char) {
    (IsSpace(c) && IsMarker(d)) || (IsMarker(c) && IsSpace(d))
  }

  /** No whitespace character sits directly next to a marker. */
  predicate Tidy(s: string) {
    forall i :: 0 <= i < |s| - 1 ==> !Clash(s[i], s[i + 1])
  }

  predicate NoMarker(s: string) {
    forall i :: 0 <= i < |s| ==> !IsMarker(s[i])
  }

  /** The non-whitespace characters of a text, in order. */
  function Visible(s: string): string {
    if s == [] then [] else (if IsSpace(s[0]) then [] else [s[0]]) + Visible(s[1..])
  }

  /** `r` is obtained from `s` by deleting characters. */
  predicate IsSubsequence(r: string, s: string)
    decreases |s|
  {
    r == [] || (s != [] && ((r[0] == s[0] && IsSubsequence(r[1..], s[1..])) || IsSubsequence(r, s[1..])))
  }

  /** The three cases of one `Normalize` step, as separate facts. */
  lemma NormalizeMatch(s: string, k: nat)
    requires k == Span(s, IsSpace) && k < |s| && IsMarker(s[k])
    ensures AllSpace(s[..k])
    ensures Normalize(s) == [s[k]] + Normalize(s[k + 1..][Span(s[k + 1..], IsSpace)..])
  {
  }

  lemma NormalizeCopy(s: string)
    requires s != [] && !IsSpace(s[0]) && !IsMarker(s[0])
    ensures Normalize(s) == [s[0]] + Normalize(s[1..])
  {
    assert Span(s, IsSpace) == 0;
  }

  lemma NormalizeKeepRun(s: string, k: nat)
    requires k == Span(s, IsSpace) && 0 < k && !(k < |s| && IsMarker(s[k]))
    ensures AllSpace(s[..k])
    ensures Normalize(s) == s[..k] + Normalize(s[k..])
  {
  }

  lemma NormalizeHead(s: string)
    requires s != [] && !IsSpace(s[0])
    ensures Normalize(s) != [] && Normalize(s)[0] == s[0]
  {
    assert Span(s, IsSpace) == 0;
  }

  lemma TidyCons(c: char, x: string)
    requires Tidy(x)
    requires x == [] || !Clash(c, x[0])
    ensures Tidy([c] + x)
  {
    var y := [c] + x;
    forall i | 0 <= i < |y| - 1 ensures !Clash(y[i], y[i + 1]) {
      if i > 0 { assert y[i] == x[i - 1] && y[i + 1] == x[i]; }
    }
  }

  lemma TidyAppendSpaces(w: string, x: string)
    requires AllSpace(w) && Tidy(x)
    requires w == [] || x == [] || !IsMarker(x[0])
    ensures Tidy(w + x)
  {
    var y := w + x;
    forall i | 0 <= i < |y| - 1 ensures !Clash(y[i], y[i + 1]) {
      if i >= |w| { assert y[i] == x[i - |w|] && y[i + 1] == x[i + 1 - |w|]; }
      else if i + 1 < |w| { assert y[i] == w[i] && y[i + 1] == w[i + 1]; }
      else { assert y[i] == w[i] && y[i + 1] == x[0]; }
    }
  }

  lemma TidySuffix(s: string, j: nat)
    requires Tidy(s) && j <= |s|
    ensures Tidy(s[j..])
  {
    var t := s[j..];
    forall i | 0 <= i < |t| - 1 ensures !Clash(t[i], t[i + 1]) {
      assert t[i] == s[j + i] && t[i + 1] == s[j + i + 1];
    }
  }

  /** In the output, no whitespace character sits directly next to a marker. */
  lemma {:induction false} NormalizeIsTidy(s: string)
    ensures Tidy(Normalize(s))
    decreases |s|
  {
    if s != [] {
      var k := Span(s, IsSpace);
      if k < |s| && IsMarker(s[k]) {
        var rest := s[k + 1..];
        var v := rest[Span(rest, IsSpace)..];
        NormalizeMatch(s, k);
        NormalizeIsTidy(v);
        if v != [] { NormalizeHead(v); }
        TidyCons(s[k], Normalize(v));
      } else if k == 0 {
        NormalizeCopy(s);
        NormalizeIsTidy(s[1..]);
        TidyCons(s[0], Normalize(s[1..]));
      } else {
        NormalizeKeepRun(s, k);
        NormalizeIsTidy(s[k..]);
        if k < |s| { NormalizeHead(s[k..]); }
        TidyAppendSpaces(s[..k], Normalize(s[k..]));
      }
    }
  }

  /** In a tidy text, a marker is never preceded by whitespace. */
  lemma {:induction false} TidySpan(s: string)
    requires Tidy(s)
    ensures Span(s, IsSpace) < |s| && IsMarker(s[Span(s, IsSpace)]) ==> Span(s, IsSpace) == 0
    decreases |s|
  {
    if s != [] && IsSpace(s[0]) {
      TidySuffix(s, 1);
      TidySpan(s[1..]);
      assert |s| > 1 ==> !Clash(s[0], s[1]);
    }
  }

  /** A text that is already tidy comes back unchanged. */
  lemma {:induction false} NormalizeFixesTidy(s: string)
    requires Tidy(s)
    ensures Normalize(s) == s
    decreases |s|
  {
    if s != [] {
      var k := Span(s, IsSpace);
      if k < |s| && IsMarker(s[k]) {
        TidySpan(s);
        var rest := s[1..];
        if rest != [] { assert !Clash(s[0], s[1]); assert rest[0] == s[1]; }
        assert Span(rest, IsSpace) == 0;
        TidySuffix(s, 1);
        NormalizeFixesTidy(rest);
        assert s == [s[0]] + rest;
      } else if k == 0 {
        TidySuffix(s, 1);
        NormalizeFixesTidy(s[1..]);
        assert s == [s[0]] + s[1..];
      } else {
        TidySuffix(s, k);
        NormalizeFixesTidy(s[k..]);
        assert s == s[..k] + s[k..];
      }
    }
  }

  /** A text without `<`, `>` or `/` comes back unchanged. */
  lemma NormalizeWithoutMarkers(s: string)
    requires NoMarker(s)
    ensures Normalize(s) == s
  {
    assert Tidy(s);
    NormalizeFixesTidy(s);
  }

  /** Normalising twice is normalising once. */
  lemma NormalizeIdempotent(s: string)
    ensures Normalize(Normalize(s)) == Normalize(s)
  {
    NormalizeIsTidy(s);
    NormalizeFixesTidy(Normalize(s));
  }

  lemma {:induction false} VisibleAppend(a: string, b: string)
    ensures Visible(a + b) == Visible(a) + Visible(b)
    decreases |a|
  {
    if a == [] {
      assert a + b == b;
    } else {
      assert (a + b)[0] == a[0];
      assert (a + b)[1..] == a[1..] + b;
      VisibleAppend(a[1..], b);
    }
  }

  lemma {:induction false} VisibleOfSpaces(w: string)
    requires AllSpace(w)
    ensures Visible(w) == []
    decreases |w|
  {
    if w != [] { VisibleOfSpaces(w[1..]); }
  }

  lemma VisibleSkipSpaces(w: string, x: string)
    requires AllSpace(w)
    ensures Visible(w + x) == Visible(x)
  {
    VisibleOfSpaces(w);
    VisibleAppend(w, x);
  }

  lemma VisibleCons(c: char, x: string)
    requires !IsSpace(c)
    ensures Visible([c] + x) == [c] + Visible(x)
  {
    VisibleAppend([c], x);
  }

  /** The visible text of a match: whitespace, the marker, whitespace, then the rest `v`. */
  lemma VisibleOfMatch(s: string, k: nat, j: nat, nv: string)
    requires k < |s| && AllSpace(s[..k]) && !IsSpace(s[k])
    requires j <= |s[k + 1..]| && AllSpace(s[k + 1..][..j])
    requires Visible(nv) == Visible(s[k + 1..][j..])
    ensures Visible([s[k]] + nv) == Visible(s)
  {
    var w1, m, rest := s[..k], s[k], s[k + 1..];
    var w2, v := rest[..j], rest[j..];
    assert s == w1 + ([m] + (w2 + v));
    VisibleSkipSpaces(w2, v);
    VisibleCons(m, w2 + v);
    VisibleCons(m, nv);
    VisibleSkipSpaces(w1, [m] + (w2 + v));
  }

  lemma VisibleOfCopy(s: string, ns: string)
    requires s != [] && !IsSpace(s[0])
    requires Visible(ns) == Visible(s[1..])
    ensures Visible([s[0]] + ns) == Visible(s)
  {
    VisibleCons(s[0], ns);
  }

  lemma VisibleOfRun(s: string, k: nat, ns: string)
    requires k <= |s| && AllSpace(s[..k])
    requires Visible(ns) == Visible(s[k..])
    ensures Visible(s[..k] + ns) == Visible(s)
  {
    VisibleSkipSpaces(s[..k], ns);
    assert s == s[..k] + s[k..];
    VisibleSkipSpaces(s[..k], s[k..]);
  }

  /** Normalising keeps every non-whitespace character, in order, and adds none. */
  lemma {:induction false} NormalizeKeepsVisible(s: string)
    ensures Visible(Normalize(s)) == Visible(s)
    decreases |s|
  {
    if s != [] {
      var k := Span(s, IsSpace);
      if k < |s| && IsMarker(s[k]) {
        NormalizeMatch(s, k);
        var rest := s[k + 1..];
        var j := Span(rest, IsSpace);
        NormalizeKeepsVisible(rest[j..]);
        VisibleOfMatch(s, k, j, Normalize(rest[j..]));
      } else if k == 0 {
        NormalizeCopy(s);
        NormalizeKeepsVisible(s[1..]);
        VisibleOfCopy(s, Normalize(s[1..]));
      } else {
        NormalizeKeepRun(s, k);
        NormalizeKeepsVisible(s[k..]);
        VisibleOfRun(s, k, Normalize(s[k..]));
      }
    }
  }

  lemma {:induction false} SubsequenceDrop(r: string, a: string, s: string)
    requires IsSubsequence(r, s)
    ensures IsSubsequence(r, a + s)
    decreases |a|
  {
    if a == [] {
      assert a + s == s;
    } else {
      SubsequenceDrop(r, a[1..], s);
      assert (a + s)[1..] == a[1..] + s;
    }
  }

  lemma {:induction false} SubsequenceKeep(a: string, r: string, s: string)
    requires IsSubsequence(r, s)
    ensures IsSubsequence(a + r, a + s)
    decreases |a|
  {
    if a == [] {
      assert a + r == r && a + s == s;
    } else {
      SubsequenceKeep(a[1..], r, s);
      assert (a + r)[0] == a[0] == (a + s)[0];
      assert (a + r)[1..] == a[1..] + r;
      assert (a + s)[1..] == a[1..] + s;
    }
  }

  lemma SubsequenceOfMatch(s: string, k: nat, j: nat, nv: string)
    requires k < |s| && j <= |s[k + 1..]|
    requires IsSubsequence(nv, s[k + 1..][j..])
    ensures IsSubsequence([s[k]] + nv, s)
  {
    var w1, m, rest := s[..k], s[k], s[k + 1..];
    var w2, v := rest[..j], rest[j..];
    assert s == w1 + ([m] + (w2 + v));
    SubsequenceDrop(nv, w2, v);
    SubsequenceKeep([m], nv, w2 + v);
    SubsequenceDrop([m] + nv, w1, [m] + (w2 + v));
  }

  lemma SubsequenceOfCopy(s: string, ns: string)
    requires s != []
    requires IsSubsequence(ns, s[1..])
    ensures IsSubsequence([s[0]] + ns, s)
  {
    SubsequenceKeep([s[0]], ns, s[1..]);
    assert s == [s[0]] + s[1..];
  }

  lemma SubsequenceOfRun(s: string, k: nat, ns: string)
    requires k <= |s|
    requires IsSubsequence(ns, s[k..])
    ensures IsSubsequence(s[..k] + ns, s)
  {
    SubsequenceKeep(s[..k], ns, s[k..]);
    assert s == s[..k] + s[k..];
  }

  /** Normalising only deletes characters; with NormalizeKeepsVisible, the deleted ones are whitespace. */
  lemma {:induction false} NormalizeDeletes(s: string)
    ensures IsSubsequence(Normalize(s), s)
    decreases |s|
  {
    if s != [] {
      var k := Span(s, IsSpace);
      if k < |s| && IsMarker(s[k]) {
        NormalizeMatch(s, k);
        var rest := s[k + 1..];
        var j := Span(rest, IsSpace);
        NormalizeDeletes(rest[j..]);
        SubsequenceOfMatch(s, k, j, Normalize(rest[j..]));
      } else if k == 0 {
        NormalizeCopy(s);
        NormalizeDeletes(s[1..]);
        SubsequenceOfCopy(s, Normalize(s[1..]));
      } else {
        NormalizeKeepRun(s, k);
        NormalizeDeletes(s[k..]);
        SubsequenceOfRun(s, k, Normalize(s[k..]));
      }
    }
  }

  // An independent, position-wise description of what the substitution deletes.

  /** The first position at or after `i` that is not whitespace, or `|s|`. */
  function NextVisible(s: string, i: nat): (j: nat)
    requires i <= |s|
    ensures i <= j <= |s|
    decreases |s| - i
  {
    if i < |s| && IsSpace(s[i]) then NextVisible(s, i + 1) else i
  }

  /** The start of the whitespace run that ends just before `i`. */
  function RunStart(s: string, i: nat): (p: nat)
    requires i <= |s|
    ensures p <= i
  {
    if i > 0 && IsSpace(s[i - 1]) then RunStart(s, i - 1) else i
  }

  /** Position `i` is whitespace, and the maximal whitespace run around it has
      a marker directly before it or directly after it. */
  predicate Dropped(s: string, i: nat)
    requires i < |s|
  {
    && IsSpace(s[i])
    && ((NextVisible(s, i) < |s| && IsMarker(s[NextVisible(s, i)]))
        || (RunStart(s, i) > 0 && IsMarker(s[RunStart(s, i) - 1])))
  }

  /** Which positions of `s` are dropped. */
  function DropMask(s: string): (mask: seq<bool>)
    ensures |mask| == |s|
  {
    seq(|s|, i requires 0 <= i < |s| => Dropped(s, i))
  }

  /** The characters of `s` from position `j` on whose flag in `drop` is not set, in order. */
  function Filter(s: string, drop: seq<bool>, j: nat): string
    requires |drop| == |s| && j <= |s|
    decreases |s| - j
  {
    if j == |s| then [] else (if drop[j] then [] else [s[j]]) + Filter(s, drop, j + 1)
  }

  /** The characters of `s` that are not dropped, in order. */
  function Kept(s: string): string {
    Filter(s, DropMask(s), 0)
  }

  /** Across a whitespace run, the next visible position is the end of the run. */
  lemma {:induction false} NextVisibleRun(s: string, i: nat, e: nat)
    requires i <= e <= |s| && (forall q :: i <= q < e ==> IsSpace(s[q]))
    requires e == |s| || !IsSpace(s[e])
    ensures NextVisible(s, i) == e
    decreases e - i
  {
    if i < e {
      NextVisibleRun(s, i + 1, e);
    }
  }

  /** Inside a maximal whitespace run, the run starts where it starts. */
  lemma {:induction false} RunStartRun(s: string, p: nat, i: nat)
    requires p <= i <= |s| && (forall q :: p <= q < i ==> IsSpace(s[q]))
    requires p == 0 || !IsSpace(s[p - 1])
    ensures RunStart(s, i) == p
    decreases i - p
  {
    if p < i {
      RunStartRun(s, p, i - 1);
    }
  }

  lemma {:induction false} FilterDropped(s: string, drop: seq<bool>, j: nat, e: nat)
    requires |drop| == |s| && j <= e <= |s| && forall i :: j <= i < e ==> drop[i]
    ensures Filter(s, drop, j) == Filter(s, drop, e)
    decreases e - j
  {
    if j < e {
      FilterDropped(s, drop, j + 1, e);
    }
  }

  lemma AppendAssoc(a: string, b: string, c: string)
    ensures a + (b + c) == (a + b) + c
  {
  }

  lemma {:induction false} FilterKept(s: string, drop: seq<bool>, j: nat, e: nat)
    requires |drop| == |s| && j <= e <= |s| && forall i :: j <= i < e ==> !drop[i]
    ensures Filter(s, drop, j) == s[j..e] + Filter(s, drop, e)
    decreases e - j
  {
    if j < e {
      FilterKept(s, drop, j + 1, e);
      assert s[j..e] == [s[j]] + s[j + 1..e];
      AppendAssoc([s[j]], s[j + 1..e], Filter(s, drop, e));
    }
  }

  /** A position where the scan may start over without losing context: the start,
      the end, a non-whitespace character, or just after a character that is
      neither whitespace nor a marker. */
  predicate Resumable(s: string, j: nat)
    requires j <= |s|
  {
    j == 0 || j == |s| || !IsSpace(s[j]) || (!IsSpace(s[j - 1]) && !IsMarker(s[j - 1]))
  }

  /** The whitespace run that starts at `j`, in positions of `s`. */
  lemma SpanRun(s: string, j: nat)
    requires j <= |s|
    ensures j + Span(s[j..], IsSpace) <= |s|
    ensures forall q :: j <= q < j + Span(s[j..], IsSpace) ==> IsSpace(s[q])
    ensures j + Span(s[j..], IsSpace) == |s| || !IsSpace(s[j + Span(s[j..], IsSpace)])
  {
    var t := s[j..];
    forall q | j <= q < j + Span(t, IsSpace) ensures IsSpace(s[q]) {
      assert s[q] == t[q - j];
    }
    if j + Span(t, IsSpace) < |s| {
      assert s[j + Span(t, IsSpace)] == t[Span(t, IsSpace)];
    }
  }

  /** Whitespace running up to a marker is dropped. */
  lemma DroppedBeforeMarker(s: string, i: nat, e: nat)
    requires i < e < |s| && IsMarker(s[e]) && forall q :: i <= q < e ==> IsSpace(s[q])
    ensures DropMask(s)[i]
  {
    NextVisibleRun(s, i, e);
    assert Dropped(s, i);
  }

  /** Whitespace running on from a marker is dropped. */
  lemma DroppedAfterMarker(s: string, p: nat, i: nat)
    requires 0 < p <= i < |s| && IsMarker(s[p - 1]) && forall q :: p <= q <= i ==> IsSpace(s[q])
    ensures DropMask(s)[i]
  {
    RunStartRun(s, p, i);
    assert Dropped(s, i);
  }

  /** Whitespace in a maximal run with no marker on either side is kept. */
  lemma KeptInRun(s: string, p: nat, i: nat, e: nat)
    requires p <= i < e <= |s| && forall q :: p <= q < e ==> IsSpace(s[q])
    requires p == 0 || (!IsSpace(s[p - 1]) && !IsMarker(s[p - 1]))
    requires e == |s| || (!IsSpace(s[e]) && !IsMarker(s[e]))
    ensures !DropMask(s)[i]
  {
    NextVisibleRun(s, i, e);
    RunStartRun(s, p, i);
    assert !Dropped(s, i);
  }

  /** A filter that drops everything in `[j, e)` except position `i` keeps just `s[i]` there. */
  lemma FilterSingle(s: string, drop: seq<bool>, j: nat, i: nat, e: nat)
    requires |drop| == |s| && j <= i < e <= |s| && !drop[i]
    requires forall q :: j <= q < i ==> drop[q]
    requires forall q :: i < q < e ==> drop[q]
    ensures Filter(s, drop, j) == [s[i]] + Filter(s, drop, e)
  {
    FilterDropped(s, drop, j, i);
    FilterDropped(s, drop, i + 1, e);
  }

  /** The mask drops the whitespace run in front of a marker. */
  lemma MaskBeforeMarker(s: string, j: nat, k: nat)
    requires j < |s| && k == Span(s[j..], IsSpace) && k < |s| - j && IsMarker(s[j + k])
    ensures forall q :: j <= q < j + k ==> DropMask(s)[q]
  {
    SpanRun(s, j);
    forall q | j <= q < j + k ensures DropMask(s)[q] {
      DroppedBeforeMarker(s, q, j + k);
    }
  }

  /** The mask drops the whitespace run after a marker, which ends at a resumable position. */
  lemma MaskAfterMarker(s: string, p: nat, m: nat, e: nat)
    requires 0 < p <= |s| && IsMarker(s[p - 1]) && m == Span(s[p..], IsSpace) && e == p + m
    ensures e <= |s| && Resumable(s, e)
    ensures forall q :: p <= q < e ==> DropMask(s)[q]
  {
    SpanRun(s, p);
    forall q | p <= q < e ensures DropMask(s)[q] {
      DroppedAfterMarker(s, p, q);
    }
  }

  /** The mask keeps every marker. */
  lemma MaskKeepsMarker(s: string, i: nat)
    requires i < |s| && IsMarker(s[i])
    ensures !DropMask(s)[i]
  {
    assert !Dropped(s, i);
  }

  /** On a match, the mask drops both whitespace runs and keeps the marker, and the scan
      resumes at a resumable position. */
  lemma MatchMask(s: string, j: nat, k: nat, m: nat, e: nat)
    requires j < |s| && k == Span(s[j..], IsSpace) && k < |s| - j && IsMarker(s[j + k])
    requires m == Span(s[j + k + 1..], IsSpace) && e == j + k + 1 + m
    ensures e <= |s| && Resumable(s, e) && !DropMask(s)[j + k]
    ensures forall q :: j <= q < j + k ==> DropMask(s)[q]
    ensures forall q :: j + k < q < e ==> DropMask(s)[q]
  {
    MaskBeforeMarker(s, j, k);
    MaskAfterMarker(s, j + k + 1, m, e);
    MaskKeepsMarker(s, j + k);
  }

  /** The filter on a match: the whitespace runs on both sides of the marker are dropped. */
  lemma MatchDropped(s: string, j: nat, k: nat, m: nat, e: nat, w: string)
    requires j < |s| && k == Span(s[j..], IsSpace) && k < |s| - j && IsMarker(s[j + k])
    requires m == Span(s[j + k + 1..], IsSpace) && e == j + k + 1 + m && w == [s[j + k]]
    ensures e <= |s| && Resumable(s, e)
    ensures Filter(s, DropMask(s), j) == w + Filter(s, DropMask(s), e)
  {
    MatchMask(s, j, k, m, e);
    FilterSingle(s, DropMask(s), j, j + k, e);
  }

  /** `Normalize` on a match: the marker alone is emitted. */
  lemma NormalizeMatchAt(s: string, j: nat, k: nat, m: nat, e: nat, w: string)
    requires j < |s| && k == Span(s[j..], IsSpace) && k < |s| - j && IsMarker(s[j + k])
    requires m == Span(s[j + k + 1..], IsSpace) && e == j + k + 1 + m && w == [s[j + k]]
    ensures e <= |s|
    ensures Normalize(s[j..]) == w + Normalize(s[e..])
  {
    var t := s[j..];
    NormalizeMatch(t, k);
    assert t[k] == s[j + k];
    assert t[k + 1..] == s[j + k + 1..];
    assert t[k + 1..][m..] == s[e..];
  }

  /** A match step of `Normalize` and of the filter agree, and the scan resumes safely. */
  lemma MatchStep(s: string, j: nat, k: nat, m: nat) returns (e: nat, w: string)
    requires j < |s| && k == Span(s[j..], IsSpace) && k < |s| - j && IsMarker(s[j + k])
    requires m == Span(s[j + k + 1..], IsSpace)
    ensures j < e <= |s| && Resumable(s, e)
    ensures Normalize(s[j..]) == w + Normalize(s[e..])
    ensures Filter(s, DropMask(s), j) == w + Filter(s, DropMask(s), e)
  {
    e, w := j + k + 1 + m, [s[j + k]];
    NormalizeMatchAt(s, j, k, m, e, w);
    MatchDropped(s, j, k, m, e, w);
  }

  /** The copy step of `Normalize` on the suffix from `j`. */
  lemma NormalizeCopyAt(s: string, j: nat)
    requires j < |s| && !IsSpace(s[j]) && !IsMarker(s[j])
    ensures Normalize(s[j..]) == [s[j]] + Normalize(s[j + 1..])
  {
    NormalizeCopy(s[j..]);
    assert s[j..][1..] == s[j + 1..];
  }

  /** A copy step of `Normalize` and of the filter agree, and the scan resumes safely. */
  lemma CopyStep(s: string, j: nat) returns (e: nat, w: string)
    requires j < |s| && Span(s[j..], IsSpace) == 0 && !IsMarker(s[j])
    ensures j < e <= |s| && Resumable(s, e)
    ensures Normalize(s[j..]) == w + Normalize(s[e..])
    ensures Filter(s, DropMask(s), j) == w + Filter(s, DropMask(s), e)
  {
    assert !IsSpace(s[j]) by {
      assert s[j..][0] == s[j];
    }
    NormalizeCopyAt(s, j);
    assert !DropMask(s)[j] by {
      assert !Dropped(s, j);
    }
    e, w := j + 1, [s[j]];
  }

  /** `Normalize` on a whitespace run not followed by a marker: the run is emitted. */
  lemma NormalizeKeepRunAt(s: string, j: nat, k: nat, e: nat, w: string)
    requires j < |s| && k == Span(s[j..], IsSpace) && 0 < k && !(k < |s| - j && IsMarker(s[j + k]))
    requires e == j + k && w == s[j..e]
    ensures e <= |s|
    ensures Normalize(s[j..]) == w + Normalize(s[e..])
  {
    var t := s[j..];
    NormalizeKeepRun(t, k);
    assert t[..k] == w && t[k..] == s[e..];
  }

  /** The filter on a whitespace run after a resumable position and not followed by a marker: the run is kept. */
  lemma RunKept(s: string, j: nat, k: nat, e: nat, w: string)
    requires j < |s| && Resumable(s, j)
    requires k == Span(s[j..], IsSpace) && 0 < k && !(k < |s| - j && IsMarker(s[j + k]))
    requires e == j + k && w == s[j..e]
    ensures e <= |s| && Resumable(s, e)
    ensures Filter(s, DropMask(s), j) == w + Filter(s, DropMask(s), e)
  {
    SpanRun(s, j);
    var drop := DropMask(s);
    forall i | j <= i < e ensures !drop[i] {
      KeptInRun(s, j, i, e);
    }
    FilterKept(s, drop, j, e);
  }

  /** A kept whitespace run is kept by `Normalize` and by the filter, and the scan resumes safely. */
  lemma KeepRunStep(s: string, j: nat, k: nat) returns (e: nat, w: string)
    requires j < |s| && Resumable(s, j)
    requires k == Span(s[j..], IsSpace) && 0 < k && !(k < |s| - j && IsMarker(s[j + k]))
    ensures j < e <= |s| && Resumable(s, e)
    ensures Normalize(s[j..]) == w + Normalize(s[e..])
    ensures Filter(s, DropMask(s), j) == w + Filter(s, DropMask(s), e)
  {
    e, w := j + k, s[j..j + k];
    NormalizeKeepRunAt(s, j, k, e, w);
    RunKept(s, j, k, e, w);
  }

  /** One step of `Normalize` from a resumable position `j`: both `Normalize` and
      the filter emit the same text `w` and continue at the resumable position `e`. */
  lemma NormalizeStep(s: string, j: nat) returns (e: nat, w: string)
    requires j < |s| && Resumable(s, j)
    ensures j < e <= |s| && Resumable(s, e)
    ensures Normalize(s[j..]) == w + Normalize(s[e..])
    ensures Filter(s, DropMask(s), j) == w + Filter(s, DropMask(s), e)
  {
    var k := Span(s[j..], IsSpace);
    if k < |s| - j && IsMarker(s[j + k]) {
      e, w := MatchStep(s, j, k, Span(s[j + k + 1..], IsSpace));
    } else if k == 0 {
      e, w := CopyStep(s, j);
    } else {
      e, w := KeepRunStep(s, j, k);
    }
  }

  lemma {:induction false} NormalizeFrom(s: string, j: nat)
    requires j <= |s| && Resumable(s, j)
    ensures Normalize(s[j..]) == Filter(s, DropMask(s), j)
    decreases |s| - j
  {
    if j == |s| {
      assert s[j..] == [];
    } else {
      var e, w := NormalizeStep(s, j);
      NormalizeFrom(s, e);
    }
  }

  /** The substitution deletes exactly the whitespace characters whose maximal
      whitespace run touches a marker; every other character, whitespace
      included, is kept in order. */
  lemma NormalizeDropsMarkerRuns(s: string)
    ensures Normalize(s) == Kept(s)
  {
    NormalizeFrom(s, 0);
    assert s[0..] == s;
  }
}
