/**
 One `file.replace(/Name = hex'(.*)'/g, `Name = hex'${bytecode.slice(2)}'`)`
 call, modelled line by line: since `.` never matches a line terminator, the
 text is cut into lines, each line is rewritten on its own, and the lines are
 glued back with their original terminators.
 */
module Substitution {
  import opened Wrappers
  import opened Text
  import Regex

  /** `bytecode.slice(2)`: the bytecode without its first two characters, whatever they are. */
  function Strip(bytecode: string): (r: string)
    ensures |bytecode| >= 2 ==> bytecode == bytecode[..2] + r
    ensures |bytecode| < 2 ==> r == []
  {
    if |bytecode| < 2 then [] else bytecode[2..]
  }

  predicate IsHexDigit(c: char) {
    '0' <= c <= '9' || 'a' <= c <= 'f' || 'A' <= c <= 'F'
  }

  predicate HexDigits(s: string) {
    forall i :: 0 <= i < |s| ==> IsHexDigit(s[i])
  }

  /** The literal part of the pattern: `Name = hex'`. */
  function Placeholder(name: string): string {
    name + " = hex'"
  }

  /** The replacement string: `Name = hex'<stripped bytecode>'`. */
  function Literal(name: string, bytecode: string): string {
    Placeholder(name) + Strip(bytecode) + "'"
  }

  /**
   Within one line, `pat` first occurs at `p` and the last quote at or after
   `p + |pat|` is at `q`: the span `line[p..q + 1]` is what the pattern matches.
   */
  ghost predicate LineMatch(line: string, pat: string, p: nat, q: nat) {
    && OccursAt(line, pat, p)
    && (forall j: nat :: j < p ==> !OccursAt(line, pat, j))
    && p + |pat| <= q < |line|
    && line[q] == '\''
    && (forall j :: q < j < |line| ==> line[j] != '\'')
  }

  /** The pattern applied to a single line: at most one match, replaced by `repl`. */
  function ReplaceLine(line: string, pat: string, repl: string): string {
    match IndexOf(line, pat, 0)
    case None => line
    case Some(p) =>
      match LastIndexOf(line, '\'', p + |pat|)
      case None => line
      case Some(q) => line[..p] + repl + line[q + 1..]
  }

  /**
   Within a line, the span from the leftmost occurrence of `pat` to the last
   quote after it is replaced and everything around it is kept; a line
   without such a span is returned as it is.
   */
  lemma ReplaceLineSpec(line: string, pat: string, repl: string)
    ensures forall p: nat, q: nat :: LineMatch(line, pat, p, q) ==>
      ReplaceLine(line, pat, repl) == line[..p] + repl + line[q + 1..]
    ensures (forall p: nat, q: nat :: !LineMatch(line, pat, p, q)) ==> ReplaceLine(line, pat, repl) == line
  {
    match IndexOf(line, pat, 0)
    case None =>
    case Some(p) =>
      match LastIndexOf(line, '\'', p + |pat|)
      case None =>
      case Some(q) =>
        assert LineMatch(line, pat, p, q);
  }

  /** The pattern applied to each line of a list. */
  function ReplaceEach(lines: seq<string>, pat: string, repl: string): (r: seq<string>)
    ensures |r| == |lines|
  {
    if |lines| == 0 then [] else [ReplaceLine(lines[0], pat, repl)] + ReplaceEach(lines[1..], pat, repl)
  }

  /** The pattern applied to every line of `text`, each terminator kept in place. */
  function ReplaceLines(text: string, pat: string, repl: string): string {
    LinesOutnumberBreaks(text);
    Join(ReplaceEach(Lines(text), pat, repl), Breaks(text))
  }

  function SubstituteLine(line: string, name: string, bytecode: string): string {
    ReplaceLine(line, Placeholder(name), Literal(name, bytecode))
  }

  /** `text.replace(/name = hex'(.*)'/g, `name = hex'${bytecode.slice(2)}'`)`. */
  function Substitute(text: string, name: string, bytecode: string): string {
    ReplaceLines(text, Placeholder(name), Literal(name, bytecode))
  }

  /** A text without terminators is rewritten as a single line. */
  lemma ReplaceLinesOfLine(text: string, pat: string, repl: string)
    requires LineLength(text) == |text|
    ensures ReplaceLines(text, pat, repl) == ReplaceLine(text, pat, repl)
  {
    assert Lines(text) == [text];
    assert ReplaceEach([text], pat, repl) == [ReplaceLine(text, pat, repl)];
  }

  /** Otherwise its first line is rewritten, then the rest after the first terminator. */
  lemma ReplaceLinesOfFirstLine(text: string, pat: string, repl: string, k: nat)
    requires k == LineLength(text) < |text|
    ensures ReplaceLines(text, pat, repl) ==
      ReplaceLine(text[..k], pat, repl) + [text[k]] + ReplaceLines(text[k + 1..], pat, repl)
  {
    var rest := text[k + 1..];
    var first := ReplaceLine(text[..k], pat, repl);
    LinesOutnumberBreaks(text);
    LinesOutnumberBreaks(rest);
    var ms, ms' := ReplaceEach(Lines(text), pat, repl), ReplaceEach(Lines(rest), pat, repl);
    ReplaceEachOfFirstLine(text, pat, repl, k);
    BreaksOfFirstLine(text, k);
    JoinCons(first, ms', text[k], Breaks(rest));
    calc {
      ReplaceLines(text, pat, repl);
      Join(ms, Breaks(text));
      Join([first] + ms', [text[k]] + Breaks(rest));
      first + [text[k]] + Join(ms', Breaks(rest));
      first + [text[k]] + ReplaceLines(rest, pat, repl);
    }
  }

  lemma ReplaceEachOfFirstLine(text: string, pat: string, repl: string, k: nat)
    requires k == LineLength(text) < |text|
    ensures ReplaceEach(Lines(text), pat, repl) ==
      [ReplaceLine(text[..k], pat, repl)] + ReplaceEach(Lines(text[k + 1..]), pat, repl)
  {
    var ls := Lines(text);
    assert ls == [text[..k]] + Lines(text[k + 1..]);
    assert ls[1..] == Lines(text[k + 1..]);
  }

  /** A match that starts in the first line of a text also ends there: `.*` stops at the terminator. */
  lemma MatchStaysInLine(text: string, pat: string, p: nat, q: nat)
    requires NoTerminator(pat)
    requires Regex.MatchAt(text, pat, p, q)
    ensures var k := LineLength(text);
      p < k ==> q < k && OccursAt(text[..k], pat, p) && text[..k][q] == '\''
  {
    var k := LineLength(text);
    if p < k {
      assert forall i :: p <= i < p + |pat| ==> text[i] == pat[i - p];
      assert p + |pat| <= k;
      assert !IsTerminator(text[q]);
      assert q < k;
      assert text[..k][p..p + |pat|] == text[p..p + |pat|];
    }
  }

  /** A line without a match lets no match of the whole text start inside it. */
  lemma NoMatchInLine(text: string, pat: string)
    requires NoTerminator(pat)
    requires forall p: nat, q: nat :: !LineMatch(text[..LineLength(text)], pat, p, q)
    ensures forall p: nat, q: nat :: Regex.MatchAt(text, pat, p, q) ==> LineLength(text) <= p
  {
    var k := LineLength(text);
    var line := text[..k];
    forall p: nat, q: nat | Regex.MatchAt(text, pat, p, q) ensures k <= p {
      if p < k {
        MatchStaysInLine(text, pat, p, q);
        var p0 := IndexOf(line, pat, 0);
        assert p0.Some? && p0.value <= p;
        var q0 := LastIndexOf(line, '\'', p0.value + |pat|);
        assert q0.Some?;
        assert LineMatch(line, pat, p0.value, q0.value);
        assert false;
      }
    }
  }

  /** The match found in the first line is the first match of the whole text. */
  lemma FirstMatchInLine(text: string, pat: string, p: nat, q: nat)
    requires NoTerminator(pat)
    requires LineMatch(text[..LineLength(text)], pat, p, q)
    ensures Regex.FirstMatch(text, pat, p, q)
  {
    var k := LineLength(text);
    var line := text[..k];
    assert text[p..p + |pat|] == line[p..p + |pat|];
    assert Regex.MatchAt(text, pat, p, q);
    forall p': nat, q': nat | Regex.MatchAt(text, pat, p', q') ensures p < p' || (p == p' && q' <= q) {
      if p' <= p {
        MatchStaysInLine(text, pat, p', q');
      }
    }
  }

  /**
   After the match in a line, the global scan finds nothing more in that line.
   `rest` names the text after the match, so the proof can refer to it without re-slicing.
   */
  lemma NoMatchAfterLineMatch(text: string, pat: string, p: nat, q: nat, rest: string)
    requires NoTerminator(pat)
    requires LineMatch(text[..LineLength(text)], pat, p, q)
    requires rest == text[q + 1..]
    ensures forall p': nat, q': nat :: Regex.MatchAt(rest, pat, p', q') ==> LineLength(text) - (q + 1) <= p'
  {
    var k := LineLength(text);
    forall p': nat, q': nat | Regex.MatchAt(rest, pat, p', q') ensures k - (q + 1) <= p' {
      Regex.ShiftMatch(text, pat, q + 1, p', q');
      MatchStaysInLine(text, pat, p' + q + 1, q' + q + 1);
    }
  }

  /** A terminator cannot begin a match, so the scan copies it and continues after it. */
  lemma ReplaceAllAtBreak(text: string, pat: string, repl: string, k: nat)
    requires NoTerminator(pat)
    requires k == LineLength(text) < |text|
    ensures Regex.ReplaceAll(text[k..], pat, repl) == [text[k]] + Regex.ReplaceAll(text[k + 1..], pat, repl)
  {
    var t := text[k..];
    forall p: nat, q: nat | Regex.MatchAt(t, pat, p, q) ensures 1 <= p {
      assert IsTerminator(t[0]);
      assert |pat| > 0 ==> t[p] == t[p..p + |pat|][0] == pat[0];
      assert !IsTerminator(t[q]);
    }
    Regex.ReplaceAllSkip(t, pat, repl, 1);
    assert t[1..] == text[k + 1..];
    assert t[..1] == [text[k]];
  }

  /** The scan over a text whose first line holds a match: that line rewritten, then the scan from its end. */
  lemma ReplaceAllOfMatchedLine(text: string, pat: string, repl: string, p: nat, q: nat)
    requires NoTerminator(pat)
    requires LineMatch(text[..LineLength(text)], pat, p, q)
    ensures var k := LineLength(text);
      Regex.ReplaceAll(text, pat, repl) == ReplaceLine(text[..k], pat, repl) + Regex.ReplaceAll(text[k..], pat, repl)
  {
    var k := LineLength(text);
    var line, rest := text[..k], text[q + 1..];
    var tail := Regex.ReplaceAll(text[k..], pat, repl);
    FirstMatchInLine(text, pat, p, q);
    Regex.ReplaceAllStep(text, pat, repl, p, q);
    ReplaceAllRestOfLine(text, pat, repl, p, q, rest);
    ReplaceLineSpec(line, pat, repl);
    assert ReplaceLine(line, pat, repl) == line[..p] + repl + line[q + 1..];
    Reassociate(text[..p], line[..p], repl, line[q + 1..], tail);
  }

  /** Moves the rest of a line from the tail of the text into the rewritten line. */
  lemma Reassociate(a: string, a': string, b: string, c: string, d: string)
    requires a == a'
    ensures a + b + (c + d) == (a' + b + c) + d
  {
  }

  /**
   After the match, the scan copies the rest of the line and continues at its terminator.
   `rest` names the text after the match, as in `NoMatchAfterLineMatch`.
   */
  lemma ReplaceAllRestOfLine(text: string, pat: string, repl: string, p: nat, q: nat, rest: string)
    requires NoTerminator(pat)
    requires LineMatch(text[..LineLength(text)], pat, p, q)
    requires rest == text[q + 1..]
    ensures var k := LineLength(text);
      Regex.ReplaceAll(rest, pat, repl) == text[..k][q + 1..] + Regex.ReplaceAll(text[k..], pat, repl)
  {
    var k := LineLength(text);
    NoMatchAfterLineMatch(text, pat, p, q, rest);
    Regex.ReplaceAllSkip(rest, pat, repl, k - (q + 1));
    assert rest[..k - (q + 1)] == text[..k][q + 1..];
    assert rest[k - (q + 1)..] == text[k..];
  }

  /** The scan over a text whose first line holds no match: that line copied, then the scan from its end. */
  lemma ReplaceAllOfMissedLine(text: string, pat: string, repl: string)
    requires NoTerminator(pat)
    requires forall p: nat, q: nat :: !LineMatch(text[..LineLength(text)], pat, p, q)
    ensures var k := LineLength(text);
      Regex.ReplaceAll(text, pat, repl) == ReplaceLine(text[..k], pat, repl) + Regex.ReplaceAll(text[k..], pat, repl)
  {
    var k := LineLength(text);
    ReplaceLineSpec(text[..k], pat, repl);
    NoMatchInLine(text, pat);
    Regex.ReplaceAllSkip(text, pat, repl, k);
  }

  /** The scan over any text: its first line rewritten as a line, then the scan from the end of that line. */
  lemma ReplaceAllOfFirstLine(text: string, pat: string, repl: string)
    requires NoTerminator(pat)
    ensures var k := LineLength(text);
      Regex.ReplaceAll(text, pat, repl) == ReplaceLine(text[..k], pat, repl) + Regex.ReplaceAll(text[k..], pat, repl)
  {
    var line := text[..LineLength(text)];
    var pm := IndexOf(line, pat, 0);
    var qm := if pm.Some? then LastIndexOf(line, '\'', pm.value + |pat|) else None;
    if pm.Some? && qm.Some? {
      assert LineMatch(line, pat, pm.value, qm.value);
      ReplaceAllOfMatchedLine(text, pat, repl, pm.value, qm.value);
    } else {
      ReplaceAllOfMissedLine(text, pat, repl);
    }
  }

  /** One line of the induction: agreement on the rest of the text gives agreement on the whole. */
  lemma ReplaceLinesIsReplaceAllStep(text: string, pat: string, repl: string, k: nat)
    requires NoTerminator(pat)
    requires k == LineLength(text) < |text|
    requires ReplaceLines(text[k + 1..], pat, repl) == Regex.ReplaceAll(text[k + 1..], pat, repl)
    ensures ReplaceLines(text, pat, repl) == Regex.ReplaceAll(text, pat, repl)
  {
    var first := ReplaceLine(text[..k], pat, repl);
    var after := Regex.ReplaceAll(text[k + 1..], pat, repl);
    calc {
      ReplaceLines(text, pat, repl);
    == { ReplaceLinesOfFirstLine(text, pat, repl, k); }
      first + [text[k]] + after;
      first + ([text[k]] + after);
    == { ReplaceAllAtBreak(text, pat, repl, k); }
      first + Regex.ReplaceAll(text[k..], pat, repl);
    == { ReplaceAllOfFirstLine(text, pat, repl); }
      Regex.ReplaceAll(text, pat, repl);
    }
  }

  /**
   The per-line model agrees with the regular-expression semantics on every
   text: cutting the text into lines loses nothing, because no match of
   `pat(.*)'` crosses a line terminator.
   */
  lemma {:induction false} ReplaceLinesIsReplaceAll(text: string, pat: string, repl: string)
    requires NoTerminator(pat)
    decreases |text|
    ensures ReplaceLines(text, pat, repl) == Regex.ReplaceAll(text, pat, repl)
  {
    var k := LineLength(text);
    if k < |text| {
      ReplaceLinesIsReplaceAll(text[k + 1..], pat, repl);
      ReplaceLinesIsReplaceAllStep(text, pat, repl, k);
    } else {
      ReplaceAllOfFirstLine(text, pat, repl);
      Regex.ReplaceAllMiss(text[k..], pat, repl);
      ReplaceLinesOfLine(text, pat, repl);
      assert text[..k] == text;
    }
  }
}
