/**
 Plain text as JavaScript's regular expressions see it: a sequence of
 characters cut into lines by the four characters that `.` refuses to match.
 */
module Text {
  import opened Wrappers

  /** LF, CR, LINE SEPARATOR and PARAGRAPH SEPARATOR: the characters `.` does not match. */
  predicate IsTerminator(c: char) {
    c == '\n' || c == '\r' || c == '\U{2028}' || c == '\U{2029}'
  }

  predicate NoTerminator(s: string) {
    forall i :: 0 <= i < |s| ==> !IsTerminator(s[i])
  }

  /** `pat` occurs in `s` starting at position `i`. */
  predicate OccursAt(s: string, pat: string, i: nat) {
    i + |pat| <= |s| && s[i..i + |pat|] == pat
  }

  ghost predicate Occurs(s: string, pat: string) {
    exists i: nat :: OccursAt(s, pat, i)
  }

  /** The leftmost occurrence of `pat` in `s` at or after `from`. */
  function IndexOf(s: string, pat: string, from: nat): (r: Option<nat>)
    decreases |s| - from
    ensures r.Some? ==> from <= r.value && OccursAt(s, pat, r.value)
    ensures r.Some? ==> forall j: nat :: from <= j < r.value ==> !OccursAt(s, pat, j)
    ensures r.None? ==> forall j: nat :: from <= j ==> !OccursAt(s, pat, j)
  {
    if from + |pat| > |s| then None
    else if s[from..from + |pat|] == pat then Some(from)
    else IndexOf(s, pat, from + 1)
  }

  /** The rightmost position at or after `from` holding `c`. */
  function LastIndexOf(s: string, c: char, from: nat): (r: Option<nat>)
    decreases |s| - from
    ensures r.Some? ==> from <= r.value < |s| && s[r.value] == c
    ensures r.Some? ==> forall j :: r.value < j < |s| ==> s[j] != c
    ensures r.None? ==> forall j :: from <= j < |s| ==> s[j] != c
  {
    if from >= |s| then None
    else match LastIndexOf(s, c, from + 1)
      case Some(i) => Some(i)
      case None => if s[from] == c then Some(from) else None
  }

  /** The length of the first line of `s`: the position of its first terminator, or `|s|`. */
  function LineLength(s: string): (k: nat)
    ensures k <= |s|
    ensures NoTerminator(s[..k])
    ensures k < |s| ==> IsTerminator(s[k])
  {
    if |s| == 0 || IsTerminator(s[0]) then 0
    else
      var k' := LineLength(s[1..]);
      assert s[..1 + k'] == [s[0]] + s[1..][..k'];
      1 + k'
  }

  /** The first line of a text ends exactly at the terminator that follows a terminator-free prefix. */
  lemma LineLengthOf(a: string, t: char, b: string)
    requires NoTerminator(a) && IsTerminator(t)
    ensures LineLength(a + [t] + b) == |a|
  {
    var s := a + [t] + b;
    assert s[|a|] == t;
    assert forall i :: 0 <= i < |a| ==> s[i] == a[i];
  }

  /** The lines of `s`, without their terminators; a text without terminators is one line. */
  function Lines(s: string): (ls: seq<string>)
    decreases |s|
    ensures |ls| >= 1
    ensures forall i :: 0 <= i < |ls| ==> NoTerminator(ls[i])
  {
    var k := LineLength(s);
    if k == |s| then [s] else [s[..k]] + Lines(s[k + 1..])
  }

  /** The terminator that ends each line of `s` but the last. */
  function Breaks(s: string): (bs: seq<char>)
    decreases |s|
    ensures forall i :: 0 <= i < |bs| ==> IsTerminator(bs[i])
  {
    var k := LineLength(s);
    if k == |s| then [] else [s[k]] + Breaks(s[k + 1..])
  }

  /** A text with `n` terminators has `n + 1` lines. */
  lemma {:induction false} LinesOutnumberBreaks(s: string)
    decreases |s|
    ensures |Lines(s)| == |Breaks(s)| + 1
  {
    var k := LineLength(s);
    if k < |s| {
      LinesOutnumberBreaks(s[k + 1..]);
    }
  }

  /** Glues lines back together, putting `bs[i]` after line `i`. */
  function Join(ls: seq<string>, bs: seq<char>): string
    requires |ls| == |bs| + 1
    decreases |bs|
  {
    if |bs| == 0 then ls[0] else ls[0] + [bs[0]] + Join(ls[1..], bs[1..])
  }

  lemma JoinCons(l: string, ls: seq<string>, b: char, bs: seq<char>)
    requires |ls| == |bs| + 1
    ensures Join([l] + ls, [b] + bs) == l + [b] + Join(ls, bs)
  {
    assert ([l] + ls)[1..] == ls;
    assert ([b] + bs)[1..] == bs;
  }

  /** The line terminators of `s`, in order, counted character by character. */
  function Terminators(s: string): seq<char>
  {
    if |s| == 0 then []
    else (if IsTerminator(s[0]) then [s[0]] else []) + Terminators(s[1..])
  }

  /** Splitting a text into lines and joining them again gives back the text. */
  lemma {:induction false} JoinLines(s: string)
    decreases |s|
    ensures |Lines(s)| == |Breaks(s)| + 1
    ensures Join(Lines(s), Breaks(s)) == s
  {
    LinesOutnumberBreaks(s);
    var k := LineLength(s);
    if k < |s| {
      JoinLines(s[k + 1..]);
      JoinFirstLine(s, k, s[k + 1..]);
    } else {
      assert s[..k] == s;
    }
  }

  lemma JoinFirstLine(s: string, k: nat, rest: string)
    requires k == LineLength(s) < |s| && rest == s[k + 1..]
    requires |Lines(rest)| == |Breaks(rest)| + 1
    requires Join(Lines(rest), Breaks(rest)) == rest
    ensures |Lines(s)| == |Breaks(s)| + 1
    ensures Join(Lines(s), Breaks(s)) == s
  {
    LinesOfFirstLine(s, k);
    BreaksOfFirstLine(s, k);
    calc {
      Join(Lines(s), Breaks(s));
      Join([s[..k]] + Lines(rest), [s[k]] + Breaks(rest));
    == { JoinCons(s[..k], Lines(rest), s[k], Breaks(rest)); }
      s[..k] + [s[k]] + Join(Lines(rest), Breaks(rest));
      s[..k] + [s[k]] + rest;
    == { SplitAt(s, k); }
      s;
    }
  }

  lemma SplitAt(s: string, k: nat)
    requires k < |s|
    ensures s == s[..k] + [s[k]] + s[k + 1..]
  {
  }

  lemma LinesOfFirstLine(s: string, k: nat)
    requires k == LineLength(s) < |s|
    ensures Lines(s) == [s[..k]] + Lines(s[k + 1..])
  {
  }

  /** Joining terminator-free lines and splitting the result gives back the lines and the terminators. */
  lemma {:induction false} LinesOfJoin(ls: seq<string>, bs: seq<char>)
    requires |ls| == |bs| + 1
    requires forall i :: 0 <= i < |ls| ==> NoTerminator(ls[i])
    requires forall i :: 0 <= i < |bs| ==> IsTerminator(bs[i])
    decreases |bs|
    ensures Lines(Join(ls, bs)) == ls
    ensures Breaks(Join(ls, bs)) == bs
  {
    if |bs| > 0 {
      var rest := Join(ls[1..], bs[1..]);
      var s := ls[0] + [bs[0]] + rest;
      LineLengthOf(ls[0], bs[0], rest);
      assert s[..|ls[0]|] == ls[0];
      assert s[|ls[0]| + 1..] == rest;
      LinesOfJoin(ls[1..], bs[1..]);
      assert ls == [ls[0]] + ls[1..];
      assert bs == [bs[0]] + bs[1..];
    }
  }

  lemma {:induction false} NoTerminatorHasNone(a: string)
    requires NoTerminator(a)
    decreases |a|
    ensures Terminators(a) == []
  {
    if |a| > 0 {
      NoTerminatorHasNone(a[1..]);
    }
  }

  /** The first terminator of a text is the first entry of its terminators. */
  lemma {:induction false} TerminatorsFrom(s: string, k: nat)
    requires k < |s| && NoTerminator(s[..k]) && IsTerminator(s[k])
    decreases k
    ensures Terminators(s) == [s[k]] + Terminators(s[k + 1..])
  {
    if k > 0 {
      assert !IsTerminator(s[..k][0]);
      assert s[1..][..k - 1] == s[1..k];
      TerminatorsFrom(s[1..], k - 1);
      assert s[1..][k..] == s[k + 1..];
    }
  }

  lemma BreaksOfLastLine(s: string)
    requires LineLength(s) == |s|
    ensures Breaks(s) == [] == Terminators(s)
  {
    assert s[..|s|] == s;
    NoTerminatorHasNone(s);
  }

  lemma BreaksOfFirstLine(s: string, k: nat)
    requires k == LineLength(s) < |s|
    ensures Breaks(s) == [s[k]] + Breaks(s[k + 1..])
  {
  }

  /** The terminators that separate the lines are exactly the terminators of the text. */
  lemma {:induction false} BreaksAreTerminators(s: string)
    decreases |s|
    ensures Breaks(s) == Terminators(s)
  {
    var k := LineLength(s);
    if k == |s| {
      BreaksOfLastLine(s);
    } else {
      BreaksOfFirstLine(s, k);
      TerminatorsFrom(s, k);
      BreaksAreTerminators(s[k + 1..]);
    }
  }
}
