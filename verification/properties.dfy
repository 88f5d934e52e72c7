/**
 What one substitution promises: it stays within lines, it rewrites every
 matching line, it leaves a text without a match alone, it is idempotent,
 and two substitutions with hexadecimal bytecode commute when their
 placeholders never share a line or cannot overlap.
 */
module Properties {
  import opened Wrappers
  import opened Text
  import Regex
  import opened Substitution

  /** Neither the name nor the stripped bytecode holds a line terminator. */
  predicate SingleLine(name: string, bytecode: string) {
    NoTerminator(name) && NoTerminator(Strip(bytecode))
  }

  /** No two placeholders share a line of `text`. */
  ghost predicate Apart(text: string, pa: string, pb: string) {
    forall i :: 0 <= i < |Lines(text)| ==> !Occurs(Lines(text)[i], pa) || !Occurs(Lines(text)[i], pb)
  }

  lemma NoTerminatorConcat(a: string, b: string)
    requires NoTerminator(a) && NoTerminator(b)
    ensures NoTerminator(a + b)
  {
    assert forall i :: 0 <= i < |a| ==> (a + b)[i] == a[i];
    assert forall i :: |a| <= i < |a + b| ==> (a + b)[i] == b[i - |a|];
  }

  lemma HexIsSingleLine(name: string, bytecode: string)
    requires NoTerminator(name) && HexDigits(Strip(bytecode))
    ensures SingleLine(name, bytecode)
  {
  }

  /** The pattern and the replacement of a substitution stay on one line when its name and bytecode do. */
  lemma LiteralIsSingleLine(name: string, bytecode: string)
    requires SingleLine(name, bytecode)
    ensures NoTerminator(Placeholder(name))
    ensures NoTerminator(Literal(name, bytecode))
  {
    NoTerminatorConcat(name, " = hex'");
    NoTerminatorConcat(Placeholder(name), Strip(bytecode));
    NoTerminatorConcat(Placeholder(name) + Strip(bytecode), "'");
  }

  /** Line `i` of the rewritten list is line `i` rewritten. */
  lemma {:induction false} ReplaceEachAt(lines: seq<string>, pat: string, repl: string, i: nat)
    requires i < |lines|
    decreases i
    ensures ReplaceEach(lines, pat, repl)[i] == ReplaceLine(lines[i], pat, repl)
  {
    if i > 0 {
      ReplaceEachAt(lines[1..], pat, repl, i - 1);
    }
  }

  /** A line rewrite keeps the line free of terminators when the replacement is. */
  lemma ReplaceLineNoTerminator(line: string, pat: string, repl: string)
    requires NoTerminator(line) && NoTerminator(repl)
    ensures NoTerminator(ReplaceLine(line, pat, repl))
  {
    match IndexOf(line, pat, 0)
    case None =>
    case Some(p) =>
      match LastIndexOf(line, '\'', p + |pat|)
      case None =>
      case Some(q) =>
        NoTerminatorConcat(line[..p], repl);
        NoTerminatorConcat(line[..p] + repl, line[q + 1..]);
  }

  /**
   With a terminator-free replacement, the rewritten text has the same line
   structure: its lines are the original lines rewritten one by one, and its
   terminators are the original ones, in place.
   */
  lemma LinesOfReplaceLines(text: string, pat: string, repl: string)
    requires NoTerminator(repl)
    ensures Lines(ReplaceLines(text, pat, repl)) == ReplaceEach(Lines(text), pat, repl)
    ensures Breaks(ReplaceLines(text, pat, repl)) == Breaks(text)
  {
    LinesOutnumberBreaks(text);
    var ls := Lines(text);
    var ms := ReplaceEach(ls, pat, repl);
    forall i | 0 <= i < |ms| ensures NoTerminator(ms[i]) {
      ReplaceEachAt(ls, pat, repl, i);
      ReplaceLineNoTerminator(ls[i], pat, repl);
    }
    LinesOfJoin(ms, Breaks(text));
  }

  /**
   The substitution cannot move text across lines: line `i` of the result is
   line `i` of the input with the substitution applied to it alone, and the
   terminators between lines are unchanged.
   */
  lemma SubstituteByLine(text: string, name: string, bytecode: string)
    requires SingleLine(name, bytecode)
    ensures |Lines(Substitute(text, name, bytecode))| == |Lines(text)|
    ensures forall i :: 0 <= i < |Lines(text)| ==>
      Lines(Substitute(text, name, bytecode))[i] == SubstituteLine(Lines(text)[i], name, bytecode)
    ensures Breaks(Substitute(text, name, bytecode)) == Breaks(text)
  {
    LiteralIsSingleLine(name, bytecode);
    LinesOfReplaceLines(text, Placeholder(name), Literal(name, bytecode));
    forall i | 0 <= i < |Lines(text)|
      ensures Lines(Substitute(text, name, bytecode))[i] == SubstituteLine(Lines(text)[i], name, bytecode)
    {
      ReplaceEachAt(Lines(text), Placeholder(name), Literal(name, bytecode), i);
    }
  }

  /** The substitution neither adds nor removes a line terminator, and keeps their order. */
  lemma SubstituteKeepsTerminators(text: string, name: string, bytecode: string)
    requires SingleLine(name, bytecode)
    ensures Terminators(Substitute(text, name, bytecode)) == Terminators(text)
  {
    SubstituteByLine(text, name, bytecode);
    BreaksAreTerminators(text);
    BreaksAreTerminators(Substitute(text, name, bytecode));
  }

  /** The line model is the JavaScript global replace, whatever the bytecode holds. */
  lemma SubstituteIsGlobalReplace(text: string, name: string, bytecode: string)
    requires NoTerminator(name)
    ensures Substitute(text, name, bytecode) == Regex.ReplaceAll(text, Placeholder(name), Literal(name, bytecode))
  {
    NoTerminatorConcat(name, " = hex'");
    ReplaceLinesIsReplaceAll(text, Placeholder(name), Literal(name, bytecode));
  }

  /** A text in which the pattern matches nowhere comes back unchanged. */
  lemma SubstituteMiss(text: string, name: string, bytecode: string)
    requires NoTerminator(name)
    requires forall p: nat, q: nat :: !Regex.MatchAt(text, Placeholder(name), p, q)
    ensures Substitute(text, name, bytecode) == text
  {
    SubstituteIsGlobalReplace(text, name, bytecode);
    Regex.ReplaceAllMiss(text, Placeholder(name), Literal(name, bytecode));
  }

  /**
   Within a matching line, the span from the placeholder to the last quote
   on the line becomes the literal with the new bytecode; what precedes the
   placeholder and what follows that quote are kept.
   */
  lemma SubstituteLineShape(line: string, name: string, bytecode: string, p: nat, q: nat)
    requires LineMatch(line, Placeholder(name), p, q)
    ensures SubstituteLine(line, name, bytecode) == line[..p] + Literal(name, bytecode) + line[q + 1..]
  {
    ReplaceLineSpec(line, Placeholder(name), Literal(name, bytecode));
  }

  /** Every line that holds a match is rewritten, not only the first one. */
  lemma SubstituteEveryLine(text: string, name: string, bytecode: string, i: nat, p: nat, q: nat)
    requires SingleLine(name, bytecode)
    requires i < |Lines(text)|
    requires LineMatch(Lines(text)[i], Placeholder(name), p, q)
    ensures i < |Lines(Substitute(text, name, bytecode))|
    ensures Lines(Substitute(text, name, bytecode))[i] ==
      Lines(text)[i][..p] + Literal(name, bytecode) + Lines(text)[i][q + 1..]
  {
    SubstituteByLine(text, name, bytecode);
    SubstituteLineShape(Lines(text)[i], name, bytecode, p, q);
  }

  /**
   `.*` is greedy: a line that starts with the placeholder and ends with a
   quote is replaced whole, even when a second literal follows on it.
   */
  lemma GreedyToLastQuote(name: string, bytecode: string, rest: string)
    requires |rest| > 0 && rest[|rest| - 1] == '\''
    ensures SubstituteLine(Placeholder(name) + rest, name, bytecode) == Literal(name, bytecode)
  {
    var line := Placeholder(name) + rest;
    var pat := Placeholder(name);
    assert OccursAt(line, pat, 0);
    assert LineMatch(line, pat, 0, |line| - 1);
    SubstituteLineShape(line, name, bytecode, 0, |line| - 1);
    assert line[|line|..] == [];
  }

  /** A line without the placeholder is returned as it is. */
  lemma ReplaceLineMiss(line: string, pat: string, repl: string)
    requires !Occurs(line, pat)
    ensures ReplaceLine(line, pat, repl) == line
  {
    ReplaceLineSpec(line, pat, repl);
  }

  /** Only lines that hold the placeholder change: every other line comes through untouched. */
  lemma SubstituteIsolated(text: string, name: string, bytecode: string, i: nat)
    requires SingleLine(name, bytecode)
    requires i < |Lines(text)|
    requires !Occurs(Lines(text)[i], Placeholder(name))
    ensures i < |Lines(Substitute(text, name, bytecode))|
    ensures Lines(Substitute(text, name, bytecode))[i] == Lines(text)[i]
  {
    SubstituteByLine(text, name, bytecode);
    ReplaceLineMiss(Lines(text)[i], Placeholder(name), Literal(name, bytecode));
  }

  /** After a rewrite, the placeholder is still leftmost and the quote that closes the new literal is the last one. */
  lemma RewrittenLineMatch(line: string, pat: string, s: string, p: nat, q: nat)
    requires LineMatch(line, pat, p, q)
    ensures LineMatch(line[..p] + (pat + s + "'") + line[q + 1..], pat, p, p + |pat| + |s|)
  {
    var repl := pat + s + "'";
    var r := line[..p] + repl + line[q + 1..];
    var q' := p + |pat| + |s|;
    assert r[..p + |pat|] == line[..p + |pat|];
    assert r[p..p + |pat|] == pat;
    forall j: nat | j < p ensures !OccursAt(r, pat, j) {
      assert !OccursAt(line, pat, j);
      PrefixOccurrence(r, line, p + |pat|, pat, j);
    }
    assert r[q'] == '\'';
    forall j | q' < j < |r| ensures r[j] != '\'' {
      assert r[j] == line[j - q' + q];
    }
  }

  /**
   Rewriting a line whose placeholder is followed by a quoted literal is
   idempotent, whatever the replacement literal holds: the second pass
   matches exactly the literal the first pass wrote.
   */
  lemma ReplaceLineIdempotent(line: string, pat: string, s: string)
    ensures ReplaceLine(ReplaceLine(line, pat, pat + s + "'"), pat, pat + s + "'") ==
      ReplaceLine(line, pat, pat + s + "'")
  {
    var repl := pat + s + "'";
    ReplaceLineSpec(line, pat, repl);
    if p: nat, q: nat :| LineMatch(line, pat, p, q) {
      var r := line[..p] + repl + line[q + 1..];
      var q' := p + |pat| + |s|;
      RewrittenLineMatch(line, pat, s, p, q);
      ReplaceLineSpec(r, pat, repl);
      assert r[..p] == line[..p];
      assert r[q' + 1..] == line[q + 1..];
    }
  }

  /** Running one substitution twice gives what running it once gives. */
  lemma SubstituteIdempotent(text: string, name: string, bytecode: string)
    requires SingleLine(name, bytecode)
    ensures Substitute(Substitute(text, name, bytecode), name, bytecode) == Substitute(text, name, bytecode)
  {
    var pat, repl := Placeholder(name), Literal(name, bytecode);
    LiteralIsSingleLine(name, bytecode);
    ReplaceLinesTwice(text, pat, repl, pat, repl);
    var ls := Lines(text);
    var once := ReplaceEach(ls, pat, repl);
    var twice := ReplaceEach(once, pat, repl);
    forall i | 0 <= i < |ls| ensures twice[i] == once[i] {
      ReplaceEachAt(ls, pat, repl, i);
      ReplaceEachAt(once, pat, repl, i);
      ReplaceLineIdempotent(ls[i], pat, Strip(bytecode));
    }
    assert twice == once;
  }

  /** Two rewrites in a row act on the lines of the original text, each line on its own. */
  lemma ReplaceLinesTwice(text: string, pat: string, repl: string, pat': string, repl': string)
    requires NoTerminator(repl)
    ensures |Lines(text)| == |Breaks(text)| + 1
    ensures ReplaceLines(ReplaceLines(text, pat, repl), pat', repl') ==
      Join(ReplaceEach(ReplaceEach(Lines(text), pat, repl), pat', repl'), Breaks(text))
    ensures ReplaceLines(text, pat, repl) == Join(ReplaceEach(Lines(text), pat, repl), Breaks(text))
  {
    LinesOutnumberBreaks(text);
    LinesOfReplaceLines(text, pat, repl);
  }

  lemma HexHasNoQuote(s: string)
    requires HexDigits(s)
    ensures forall i :: 0 <= i < |s| ==> s[i] != '\'' && s[i] != 'x'
  {
  }

  /** An occurrence that ends within a prefix two texts share is an occurrence in both. */
  lemma PrefixOccurrence(r: string, line: string, n: nat, pat: string, j: nat)
    requires n <= |r| && n <= |line| && r[..n] == line[..n]
    requires j + |pat| <= n
    ensures OccursAt(r, pat, j) <==> OccursAt(line, pat, j)
  {
    assert r[j..j + |pat|] == r[..n][j..j + |pat|];
    assert line[j..j + |pat|] == line[..n][j..j + |pat|];
  }

  /**
   Where a rewrite with hexadecimal bytecode can put a quote: past the
   placeholder, the only quote is the one that closes the literal, and it
   follows a hex digit or the quote that ends the placeholder, never an `x`.
   */
  lemma RewrittenQuotes(line: string, pat: string, s: string, p: nat, q: nat)
    requires LineMatch(line, pat, p, q)
    requires |pat| > 0 && pat[|pat| - 1] == '\''
    requires HexDigits(s)
    ensures var r := line[..p] + (pat + s + "'") + line[q + 1..];
      && r[..p + |pat|] == line[..p + |pat|]
      && (forall i :: p + |pat| <= i < |r| && r[i] == '\'' ==> i == p + |pat| + |s|)
      && r[p + |pat| + |s| - 1] != 'x'
  {
    var r := line[..p] + (pat + s + "'") + line[q + 1..];
    var e := p + |pat| + |s|;
    HexHasNoQuote(s);
    assert forall i :: p + |pat| <= i < e ==> r[i] == s[i - p - |pat|];
    assert forall i :: e < i < |r| ==> r[i] == line[i - e + q];
    assert r[p + |pat| - 1] == pat[|pat| - 1];
  }

  /** The rewrite of a line with hexadecimal bytecode completes no occurrence of a pattern ending in `x'`. */
  lemma NoOccurrenceAfterRewrite(line: string, pat: string, s: string, p: nat, q: nat, other: string)
    requires LineMatch(line, pat, p, q)
    requires |pat| > 0 && pat[|pat| - 1] == '\''
    requires HexDigits(s)
    requires |other| >= 2 && other[|other| - 2..] == "x'"
    requires !Occurs(line, other)
    ensures !Occurs(line[..p] + (pat + s + "'") + line[q + 1..], other)
  {
    var r := line[..p] + (pat + s + "'") + line[q + 1..];
    forall j: nat | OccursAt(r, other, j) ensures OccursAt(line, other, j) {
      OccurrenceAfterRewrite(line, pat, s, p, q, other, j);
    }
  }

  /**
   After such a rewrite, an occurrence of a pattern ending in `x'` lies
   wholly before the end of the placeholder, so it was already in the line.
   */
  lemma OccurrenceAfterRewrite(line: string, pat: string, s: string, p: nat, q: nat, other: string, j: nat)
    requires LineMatch(line, pat, p, q)
    requires |pat| > 0 && pat[|pat| - 1] == '\''
    requires HexDigits(s)
    requires |other| >= 2 && other[|other| - 2..] == "x'"
    requires OccursAt(line[..p] + (pat + s + "'") + line[q + 1..], other, j)
    ensures j + |other| <= p + |pat|
    ensures OccursAt(line, other, j)
  {
    var r := line[..p] + (pat + s + "'") + line[q + 1..];
    RewrittenQuotes(line, pat, s, p, q);
    var e := j + |other| - 1;
    assert r[e] == other[|other| - 1] == '\'';
    assert r[e - 1] == other[|other| - 2] == 'x';
    PrefixOccurrence(r, line, p + |pat|, other, j);
  }

  /**
   A literal with hexadecimal bytecode cannot complete another placeholder:
   every placeholder ends in `x'`, and the only quote the rewrite adds
   follows a hex digit or the opening quote.
   */
  lemma NoNewOccurrence(line: string, a: string, bytecode: string, b: string)
    requires HexDigits(Strip(bytecode))
    requires !Occurs(line, Placeholder(b))
    ensures !Occurs(SubstituteLine(line, a, bytecode), Placeholder(b))
  {
    var pa, pb := Placeholder(a), Placeholder(b);
    ReplaceLineSpec(line, pa, Literal(a, bytecode));
    if p: nat, q: nat :| LineMatch(line, pa, p, q) {
      assert pb[|pb| - 2..] == "x'";
      NoOccurrenceAfterRewrite(line, pa, Strip(bytecode), p, q, pb);
    }
  }

  /** On a line that lacks one of two placeholders, the two substitutions can be run in either order. */
  lemma CommuteLine(line: string, a: string, ba: string, b: string, bb: string)
    requires HexDigits(Strip(ba)) && HexDigits(Strip(bb))
    requires !Occurs(line, Placeholder(a)) || !Occurs(line, Placeholder(b))
    ensures SubstituteLine(SubstituteLine(line, a, ba), b, bb) == SubstituteLine(SubstituteLine(line, b, bb), a, ba)
  {
    var la, lb := Literal(a, ba), Literal(b, bb);
    if !Occurs(line, Placeholder(b)) {
      NoNewOccurrence(line, a, ba, b);
      ReplaceLineMiss(line, Placeholder(b), lb);
      ReplaceLineMiss(SubstituteLine(line, a, ba), Placeholder(b), lb);
    } else {
      NoNewOccurrence(line, b, bb, a);
      ReplaceLineMiss(line, Placeholder(a), la);
      ReplaceLineMiss(SubstituteLine(line, b, bb), Placeholder(a), la);
    }
  }

  /** `pat` first occurs in `line` at `p`. */
  ghost predicate Leftmost(line: string, pat: string, p: nat) {
    OccursAt(line, pat, p) && forall j: nat :: j < p ==> !OccursAt(line, pat, j)
  }

  /**
   Neither placeholder holds the other's first character, so occurrences of
   the two can never overlap, and neither can end inside the other.
   */
  predicate Foreign(pa: string, pb: string) {
    |pa| > 0 && |pb| > 0 && pa[0] !in pb && pb[0] !in pa
  }

  lemma IndexOfLeftmost(line: string, pat: string, p: nat)
    requires Leftmost(line, pat, p)
    ensures IndexOf(line, pat, 0) == Some(p)
  {
  }

  /** Of two foreign placeholders, the one that starts first also ends before the other starts. */
  lemma NoOverlap(line: string, pa: string, pb: string, p: nat, p': nat)
    requires Foreign(pa, pb)
    requires OccursAt(line, pa, p) && OccursAt(line, pb, p') && p <= p'
    ensures p + |pa| <= p'
  {
    assert line[p'] == line[p'..p' + |pb|][0] == pb[0];
  }

  /**
   When `pa` comes first on a line and `pb` later, the greedy match of `pa`
   runs to the last quote of the line, over the whole of `pb`.
   */
  lemma FirstSwallows(line: string, pa: string, pb: string, p: nat, p': nat)
    requires Foreign(pa, pb) && pb[|pb| - 1] == '\''
    requires Leftmost(line, pa, p) && OccursAt(line, pb, p') && p < p'
    ensures p + |pa| <= p'
    ensures LastIndexOf(line, '\'', p + |pa|).Some?
    ensures var q := LastIndexOf(line, '\'', p + |pa|).value;
      LineMatch(line, pa, p, q) && p' + |pb| <= q + 1
  {
    NoOverlap(line, pa, pb, p, p');
    assert line[p' + |pb| - 1] == line[p'..p' + |pb|][|pb| - 1];
  }

  /** A line rewrite at a known match. */
  lemma ReplaceLineAt(line: string, pat: string, repl: string, p: nat, q: nat)
    requires LineMatch(line, pat, p, q)
    ensures ReplaceLine(line, pat, repl) == line[..p] + repl + line[q + 1..]
  {
    ReplaceLineSpec(line, pat, repl);
  }

  /** A line whose leftmost placeholder has no quote after it is left unchanged. */
  lemma ReplaceLineNoQuote(line: string, pat: string, repl: string, p: nat)
    requires Leftmost(line, pat, p)
    requires forall j :: p + |pat| <= j < |line| ==> line[j] != '\''
    ensures ReplaceLine(line, pat, repl) == line
  {
    IndexOfLeftmost(line, pat, p);
  }

  /**
   Rewriting `pa` with hexadecimal bytecode leaves no occurrence of a
   placeholder ending in `x'` whose leftmost occurrence lay past `pa`.
   */
  lemma NoOccurrenceBefore(line: string, pa: string, s: string, p: nat, q: nat, pb: string, p': nat)
    requires LineMatch(line, pa, p, q)
    requires |pa| > 0 && pa[|pa| - 1] == '\''
    requires HexDigits(s)
    requires |pb| >= 2 && pb[|pb| - 2..] == "x'"
    requires Leftmost(line, pb, p') && p + |pa| <= p'
    ensures !Occurs(line[..p] + (pa + s + "'") + line[q + 1..], pb)
  {
    var once := line[..p] + (pa + s + "'") + line[q + 1..];
    forall j: nat | j + |pb| <= |once| ensures !OccursAt(once, pb, j) {
      if OccursAt(once, pb, j) {
        OccurrenceAfterRewrite(line, pa, s, p, q, pb, j);
      }
    }
  }

  /** Rewriting the first placeholder first leaves no occurrence of the second, which then changes nothing. */
  lemma FirstThenSecond(line: string, pa: string, s: string, pb: string, t: string, p: nat, p': nat)
    requires Foreign(pa, pb) && pa[|pa| - 1] == '\'' && |pb| >= 2 && pb[|pb| - 2..] == "x'"
    requires HexDigits(s)
    requires Leftmost(line, pa, p) && Leftmost(line, pb, p') && p < p'
    ensures ReplaceLine(ReplaceLine(line, pa, pa + s + "'"), pb, pb + t + "'") == ReplaceLine(line, pa, pa + s + "'")
  {
    assert pb[|pb| - 1] == pb[|pb| - 2..][1];
    FirstSwallows(line, pa, pb, p, p');
    var q := LastIndexOf(line, '\'', p + |pa|).value;
    ReplaceLineAt(line, pa, pa + s + "'", p, q);
    NoOccurrenceBefore(line, pa, s, p, q, pb, p');
    ReplaceLineMiss(line[..p] + (pa + s + "'") + line[q + 1..], pb, pb + t + "'");
  }

  /**
   Rewriting the second placeholder first keeps the first one leftmost, and
   the first one's match then runs to the quote that closes the second
   literal: the line ends up as if only the first had been rewritten.
   */
  lemma SecondThenFirst(line: string, pa: string, s: string, pb: string, t: string, p: nat, p': nat)
    requires Foreign(pa, pb) && pa[|pa| - 1] == '\'' && |pb| >= 2 && pb[|pb| - 2..] == "x'"
    requires HexDigits(t)
    requires Leftmost(line, pa, p) && Leftmost(line, pb, p') && p < p'
    ensures ReplaceLine(ReplaceLine(line, pb, pb + t + "'"), pa, pa + s + "'") == ReplaceLine(line, pa, pa + s + "'")
  {
    var ra, rb := pa + s + "'", pb + t + "'";
    assert pb[|pb| - 1] == pb[|pb| - 2..][1];
    FirstSwallows(line, pa, pb, p, p');
    var q := LastIndexOf(line, '\'', p + |pa|).value;
    ReplaceLineAt(line, pa, ra, p, q);
    if q + 1 == p' + |pb| {
      ReplaceLineNoQuote(line, pb, rb, p');
    } else {
      assert LineMatch(line, pb, p', q);
      ReplaceLineAt(line, pb, rb, p', q);
      SecondRewrittenFirst(line, pa, s, pb, t, p, p', q);
    }
  }

  /** After the later placeholder's rewrite, the earlier one matches up to the new closing quote. */
  lemma SecondRewrittenFirst(line: string, pa: string, s: string, pb: string, t: string, p: nat, p': nat, q: nat)
    requires |pb| > 0 && pb[|pb| - 1] == '\''
    requires p + |pa| <= p' && Leftmost(line, pa, p) && LineMatch(line, pb, p', q)
    requires HexDigits(t)
    ensures ReplaceLine(line[..p'] + (pb + t + "'") + line[q + 1..], pa, pa + s + "'") ==
      line[..p] + (pa + s + "'") + line[q + 1..]
  {
    var once := line[..p'] + (pb + t + "'") + line[q + 1..];
    var q2 := p' + |pb| + |t|;
    RewrittenMatch(line, pa, pb, t, p, p', q);
    ReplaceLineAt(once, pa, pa + s + "'", p, q2);
    assert once[..p] == line[..p];
    assert once[q2 + 1..] == line[q + 1..];
  }

  /** The earlier placeholder keeps its leftmost place, and its match now ends at the rewritten literal's quote. */
  lemma RewrittenMatch(line: string, pa: string, pb: string, t: string, p: nat, p': nat, q: nat)
    requires |pb| > 0 && pb[|pb| - 1] == '\''
    requires p + |pa| <= p' && Leftmost(line, pa, p) && LineMatch(line, pb, p', q)
    requires HexDigits(t)
    ensures LineMatch(line[..p'] + (pb + t + "'") + line[q + 1..], pa, p, p' + |pb| + |t|)
  {
    var once := line[..p'] + (pb + t + "'") + line[q + 1..];
    var q2 := p' + |pb| + |t|;
    RewrittenQuotes(line, pb, t, p', q);
    PrefixOccurrence(once, line, p' + |pb|, pa, p);
    forall j: nat | j < p ensures !OccursAt(once, pa, j) {
      assert !OccursAt(line, pa, j);
      PrefixOccurrence(once, line, p' + |pb|, pa, j);
    }
    assert once[q2] == (pb + t + "'")[|pb| + |t|] == '\'';
  }

  /**
   Two substitutions with foreign placeholders and hexadecimal bytecode
   commute even on a line that holds both: whichever placeholder comes first
   on the line swallows the rest of it, in either order.
   */
  lemma CommuteSharedLine(line: string, a: string, ba: string, b: string, bb: string)
    requires Foreign(Placeholder(a), Placeholder(b))
    requires HexDigits(Strip(ba)) && HexDigits(Strip(bb))
    ensures SubstituteLine(SubstituteLine(line, a, ba), b, bb) == SubstituteLine(SubstituteLine(line, b, bb), a, ba)
  {
    var pa, pb := Placeholder(a), Placeholder(b);
    assert pa[|pa| - 2..] == "x'" && pb[|pb| - 2..] == "x'";
    var ia, ib := IndexOf(line, pa, 0), IndexOf(line, pb, 0);
    if ia.None? || ib.None? {
      CommuteLine(line, a, ba, b, bb);
    } else if ia.value < ib.value {
      FirstThenSecond(line, pa, Strip(ba), pb, Strip(bb), ia.value, ib.value);
      SecondThenFirst(line, pa, Strip(ba), pb, Strip(bb), ia.value, ib.value);
    } else {
      NoOverlap(line, pb, pa, ib.value, ia.value);
      FirstThenSecond(line, pb, Strip(bb), pa, Strip(ba), ib.value, ia.value);
      SecondThenFirst(line, pb, Strip(bb), pa, Strip(ba), ib.value, ia.value);
    }
  }

  /**
   Two substitutions with hexadecimal bytecode give the same text in either
   order when their placeholders never share a line, or when they are
   foreign to each other.
   */
  lemma Commute(text: string, a: string, ba: string, b: string, bb: string)
    requires NoTerminator(a) && HexDigits(Strip(ba))
    requires NoTerminator(b) && HexDigits(Strip(bb))
    requires Apart(text, Placeholder(a), Placeholder(b)) || Foreign(Placeholder(a), Placeholder(b))
    ensures Substitute(Substitute(text, a, ba), b, bb) == Substitute(Substitute(text, b, bb), a, ba)
  {
    var pa, la, pb, lb := Placeholder(a), Literal(a, ba), Placeholder(b), Literal(b, bb);
    LiteralIsSingleLine(a, ba);
    LiteralIsSingleLine(b, bb);
    ReplaceLinesTwice(text, pa, la, pb, lb);
    ReplaceLinesTwice(text, pb, lb, pa, la);
    var ls := Lines(text);
    var ab := ReplaceEach(ReplaceEach(ls, pa, la), pb, lb);
    var ba' := ReplaceEach(ReplaceEach(ls, pb, lb), pa, la);
    forall i | 0 <= i < |ls| ensures ab[i] == ba'[i] {
      ReplaceEachAt(ls, pa, la, i);
      ReplaceEachAt(ReplaceEach(ls, pa, la), pb, lb, i);
      ReplaceEachAt(ls, pb, lb, i);
      ReplaceEachAt(ReplaceEach(ls, pb, lb), pa, la, i);
      if Foreign(pa, pb) {
        CommuteSharedLine(ls[i], a, ba, b, bb);
      } else {
        CommuteLine(ls[i], a, ba, b, bb);
      }
    }
    assert ab == ba';
  }

  /** A substitution with hexadecimal bytecode keeps two other placeholders on different lines. */
  lemma ApartAfter(text: string, a: string, ba: string, b: string, c: string)
    requires NoTerminator(a) && HexDigits(Strip(ba))
    requires Apart(text, Placeholder(b), Placeholder(c))
    ensures Apart(Substitute(text, a, ba), Placeholder(b), Placeholder(c))
  {
    SubstituteByLine(text, a, ba);
    var ls := Lines(text);
    forall i | 0 <= i < |ls|
      ensures !Occurs(SubstituteLine(ls[i], a, ba), Placeholder(b)) || !Occurs(SubstituteLine(ls[i], a, ba), Placeholder(c))
    {
      if !Occurs(ls[i], Placeholder(b)) {
        NoNewOccurrence(ls[i], a, ba, b);
      } else {
        NoNewOccurrence(ls[i], a, ba, c);
      }
    }
  }
}
