/**
 The JavaScript call `text.replace(/P(.*)'/g, R)` for a literal prefix `P`
 and a replacement `R`, modelled on the whole text at once: a backtracking
 search for the leftmost start, a greedy `.*` that stops at a line
 terminator, and a global scan that resumes just after each match.
 */
module Regex {
  import opened Wrappers
  import opened Text

  /** No line terminator in `text[i..j]`: `.*` may run over it. */
  predicate Clear(text: string, i: nat, j: nat) {
    j <= |text| && forall k :: i <= k < j ==> !IsTerminator(text[k])
  }

  /** `text[p..q + 1]` matches `pat(.*)'`: `pat` at `p`, then non-terminators, then the quote at `q`. */
  ghost predicate MatchAt(text: string, pat: string, p: nat, q: nat) {
    && OccursAt(text, pat, p)
    && p + |pat| <= q < |text|
    && text[q] == '\''
    && Clear(text, p + |pat|, q)
  }

  /** The match a backtracking engine reports: the leftmost start, then the longest `.*`. */
  ghost predicate FirstMatch(text: string, pat: string, p: nat, q: nat) {
    && MatchAt(text, pat, p, q)
    && forall p': nat, q': nat :: MatchAt(text, pat, p', q') ==> p < p' || (p == p' && q' <= q)
  }

  /** Where a greedy `.*'` starting at `from` ends: the last quote reachable without crossing a terminator. */
  function LastQuote(text: string, from: nat): (r: Option<nat>)
    decreases |text| - from
    ensures r.Some? ==> from <= r.value < |text| && text[r.value] == '\'' && Clear(text, from, r.value)
    ensures forall q: nat :: from <= q < |text| && text[q] == '\'' && Clear(text, from, q) ==>
      r.Some? && q <= r.value
  {
    if from >= |text| || IsTerminator(text[from]) then None
    else match LastQuote(text, from + 1)
      case Some(q) => Some(q)
      case None => if text[from] == '\'' then Some(from) else None
  }

  /** The first match whose start is at or after `from`, as `(start, closing quote)`. */
  function FindMatch(text: string, pat: string, from: nat): (r: Option<(nat, nat)>)
    decreases |text| - from
    ensures r.Some? ==> from <= r.value.0 && MatchAt(text, pat, r.value.0, r.value.1)
    ensures forall p: nat, q: nat :: from <= p && MatchAt(text, pat, p, q) ==>
      r.Some? && (r.value.0 < p || (r.value.0 == p && q <= r.value.1))
  {
    if from + |pat| >= |text| then None
    else if OccursAt(text, pat, from) then
      match LastQuote(text, from + |pat|)
      case Some(q) => Some((from, q))
      case None => FindMatch(text, pat, from + 1)
    else FindMatch(text, pat, from + 1)
  }

  /** `text.replace(/pat(.*)'/g, repl)`, with `repl` inserted literally. */
  function ReplaceAll(text: string, pat: string, repl: string): string
    decreases |text|
  {
    var m := FindMatch(text, pat, 0);
    if m.None? then text
    else text[..m.value.0] + repl + ReplaceAll(text[m.value.1 + 1..], pat, repl)
  }

  /** Without a match, the global replace returns the text unchanged and raises nothing. */
  lemma ReplaceAllMiss(text: string, pat: string, repl: string)
    requires forall p: nat, q: nat :: !MatchAt(text, pat, p, q)
    ensures ReplaceAll(text, pat, repl) == text
  {
    assert FindMatch(text, pat, 0).None?;
  }

  /** A text has at most one first match. */
  lemma FirstMatchUnique(text: string, pat: string, p: nat, q: nat, p': nat, q': nat)
    requires FirstMatch(text, pat, p, q) && FirstMatch(text, pat, p', q')
    ensures p == p' && q == q'
  {
  }

  /** The search reports the first match, whatever else matches. */
  lemma FindMatchIsFirst(text: string, pat: string, p: nat, q: nat)
    requires FirstMatch(text, pat, p, q)
    ensures FindMatch(text, pat, 0) == Some((p, q))
  {
    var m := FindMatch(text, pat, 0);
    assert m.Some?;
    assert MatchAt(text, pat, m.value.0, m.value.1);
  }

  /** The global scan: text before the first match, the replacement, then the scan resumed after the match. */
  lemma ReplaceAllStep(text: string, pat: string, repl: string, p: nat, q: nat)
    requires FirstMatch(text, pat, p, q)
    ensures ReplaceAll(text, pat, repl) == text[..p] + repl + ReplaceAll(text[q + 1..], pat, repl)
  {
    FindMatchIsFirst(text, pat, p, q);
    ReplaceAllUnfold(text, pat, repl, p, q);
  }

  lemma ReplaceAllUnfold(text: string, pat: string, repl: string, p: nat, q: nat)
    requires FindMatch(text, pat, 0) == Some((p, q))
    ensures ReplaceAll(text, pat, repl) == text[..p] + repl + ReplaceAll(text[q + 1..], pat, repl)
  {
  }

  /** Matching looks only at the matched characters, so dropping a prefix shifts matches. */
  lemma ShiftMatch(text: string, pat: string, j: nat, p: nat, q: nat)
    requires j <= |text|
    ensures MatchAt(text[j..], pat, p, q) <==> MatchAt(text, pat, p + j, q + j)
  {
    var t := text[j..];
    if p + |pat| <= |t| {
      assert t[p..p + |pat|] == text[p + j..p + j + |pat|];
    }
    if q < |t| {
      assert t[q] == text[q + j];
      assert Clear(t, p + |pat|, q) <==> Clear(text, p + j + |pat|, q + j) by {
        assert forall k :: p + |pat| <= k < q ==> t[k] == text[k + j];
      }
    }
  }

  /** The first match survives dropping a prefix in which no match starts. */
  lemma ShiftFirstMatch(text: string, pat: string, j: nat, p: nat, q: nat)
    requires j <= p && j <= |text|
    requires FirstMatch(text, pat, p, q)
    ensures FirstMatch(text[j..], pat, p - j, q - j)
  {
    var t := text[j..];
    ShiftMatch(text, pat, j, p - j, q - j);
    forall p': nat, q': nat | MatchAt(t, pat, p', q')
      ensures p - j < p' || (p - j == p' && q' <= q - j)
    {
      ShiftMatch(text, pat, j, p', q');
    }
  }

  /** A text without matches keeps none when a prefix is dropped. */
  lemma ShiftNoMatch(text: string, pat: string, j: nat)
    requires j <= |text|
    requires forall p: nat, q: nat :: !MatchAt(text, pat, p, q)
    ensures forall p: nat, q: nat :: !MatchAt(text[j..], pat, p, q)
  {
    forall p: nat, q: nat ensures !MatchAt(text[j..], pat, p, q) {
      ShiftMatch(text, pat, j, p, q);
    }
  }

  lemma Regroup(text: string, j: nat, p: nat, repl: string, rest: string)
    requires j <= p <= |text|
    ensures text[..p] + repl + rest == text[..j] + (text[j..][..p - j] + repl + rest)
  {
    assert text[..p] == text[..j] + text[j..][..p - j];
  }

  /** A prefix in which no match starts is copied through unchanged. */
  lemma ReplaceAllSkip(text: string, pat: string, repl: string, j: nat)
    requires j <= |text|
    requires forall p: nat, q: nat :: MatchAt(text, pat, p, q) ==> j <= p
    ensures ReplaceAll(text, pat, repl) == text[..j] + ReplaceAll(text[j..], pat, repl)
  {
    var m := FindMatch(text, pat, 0);
    if m.None? {
      ShiftNoMatch(text, pat, j);
      ReplaceAllMiss(text[j..], pat, repl);
      assert text == text[..j] + text[j..];
    } else {
      assert FirstMatch(text, pat, m.value.0, m.value.1);
      ReplaceAllSkipToMatch(text, pat, repl, j, m.value.0, m.value.1);
    }
  }

  lemma ReplaceAllSkipToMatch(text: string, pat: string, repl: string, j: nat, p: nat, q: nat)
    requires j <= p
    requires FirstMatch(text, pat, p, q)
    ensures ReplaceAll(text, pat, repl) == text[..j] + ReplaceAll(text[j..], pat, repl)
  {
    var t := text[j..];
    var rest := ReplaceAll(text[q + 1..], pat, repl);
    calc {
      ReplaceAll(text, pat, repl);
    == { ReplaceAllStep(text, pat, repl, p, q); }
      text[..p] + repl + rest;
    == { Regroup(text, j, p, repl, rest); }
      text[..j] + (t[..p - j] + repl + rest);
    == { ShiftFirstMatch(text, pat, j, p, q);
         assert t[q - j + 1..] == text[q + 1..];
         ReplaceAllAround(t, pat, repl, p - j, q - j, text[q + 1..]); }
      text[..j] + ReplaceAll(t, pat, repl);
    }
  }

  /**
   The global replace around a first match, with `suffix` naming the text
   after the match so that callers and the proof share one term for it.
   */
  lemma ReplaceAllAround(text: string, pat: string, repl: string, p: nat, q: nat, suffix: string)
    requires FirstMatch(text, pat, p, q)
    requires suffix == text[q + 1..]
    ensures ReplaceAll(text, pat, repl) == text[..p] + repl + ReplaceAll(suffix, pat, repl)
  {
    ReplaceAllStep(text, pat, repl, p, q);
  }
}
