/**
 The script as a whole: the constants file is read, the creation bytecode of
 three compiled contracts is substituted into it one contract after the
 other, and the result is written back. Reading and writing the file are
 left to the caller; the model maps the text read to the text written.
 */
module PopulateConstants {
  import opened Wrappers
  import opened Text
  import Regex
  import opened Substitution
  import opened Properties

  /** The placeholder names, in the order the script substitutes them. */
  const Factory: string := "UniswapV3Factory"
  const PositionManager: string := "NonfungiblePositionManager"
  const Router: string := "SwapRouter02"

  /** The part of a compiled artifact the script reads: its `bytecode` field, which may be missing. */
  datatype Artifact = Artifact(bytecode: Option<string>)

  /** Calling `.slice` on a missing `bytecode` field throws, and nothing is written. */
  datatype Error = MissingBytecode(contract: string)

  /** The three substitutions, in the order of the script. */
  function Rewrite(text: string, factory: string, manager: string, router: string): string {
    Substitute(Substitute(Substitute(text, Factory, factory), PositionManager, manager), Router, router)
  }

  /** The three substitutions applied to one line. */
  function RewriteLine(line: string, factory: string, manager: string, router: string): string {
    SubstituteLine(SubstituteLine(SubstituteLine(line, Factory, factory), PositionManager, manager), Router, router)
  }

  /**
   The text the script writes, or the error it stops with. The three
   substitutions run in source order, and each artifact's bytecode is read
   just before its own substitution, so the first missing one is reported.
   */
  function Populate(text: string, factory: Artifact, manager: Artifact, router: Artifact): (r: Result<string, Error>)
    ensures r.Err? <==> factory.bytecode.None? || manager.bytecode.None? || router.bytecode.None?
    ensures factory.bytecode.None? ==> r == Err(MissingBytecode(Factory))
    ensures factory.bytecode.Some? && manager.bytecode.None? ==> r == Err(MissingBytecode(PositionManager))
    ensures factory.bytecode.Some? && manager.bytecode.Some? && router.bytecode.None? ==>
      r == Err(MissingBytecode(Router))
    ensures r.Ok? ==> (
      var once := Regex.ReplaceAll(text, Placeholder(Factory), Literal(Factory, factory.bytecode.value));
      var twice := Regex.ReplaceAll(once, Placeholder(PositionManager), Literal(PositionManager, manager.bytecode.value));
      r.value == Regex.ReplaceAll(twice, Placeholder(Router), Literal(Router, router.bytecode.value)))
  {
    NamesAreSingleLine();
    if factory.bytecode.None? then Err(MissingBytecode(Factory))
    else
      var t1 := Substitute(text, Factory, factory.bytecode.value);
      SubstituteIsGlobalReplace(text, Factory, factory.bytecode.value);
      if manager.bytecode.None? then Err(MissingBytecode(PositionManager))
      else
        var t2 := Substitute(t1, PositionManager, manager.bytecode.value);
        SubstituteIsGlobalReplace(t1, PositionManager, manager.bytecode.value);
        if router.bytecode.None? then Err(MissingBytecode(Router))
        else
          SubstituteIsGlobalReplace(t2, Router, router.bytecode.value);
          Ok(Substitute(t2, Router, router.bytecode.value))
  }

  lemma NamesAreSingleLine()
    ensures NoTerminator(Factory) && NoTerminator(PositionManager) && NoTerminator(Router)
  {
  }

  /** With every bytecode present, the script writes the three substitutions applied in order. */
  lemma PopulateRewrites(text: string, factory: string, manager: string, router: string)
    ensures Populate(text, Artifact(Some(factory)), Artifact(Some(manager)), Artifact(Some(router))) ==
      Ok(Rewrite(text, factory, manager, router))
  {
  }

  /**
   The condition under which the three substitutions do not interfere: the
   bytecodes are hexadecimal after their prefix.
   */
  predicate Ready(factory: string, manager: string, router: string) {
    HexDigits(Strip(factory)) && HexDigits(Strip(manager)) && HexDigits(Strip(router))
  }

  /** No placeholder holds the first letter of another, so their occurrences never overlap. */
  lemma NamesForeign()
    ensures Foreign(Placeholder(Factory), Placeholder(PositionManager))
    ensures Foreign(Placeholder(Factory), Placeholder(Router))
    ensures Foreign(Placeholder(PositionManager), Placeholder(Router))
  {
  }

  /**
   With hexadecimal bytecode the script writes the same text whatever order
   it runs the substitutions in: the five other orders give the source
   order's result. A line may hold several placeholders.
   */
  lemma RewriteInAnyOrder(text: string, factory: string, manager: string, router: string)
    requires Ready(factory, manager, router)
    ensures var F, M, R := (t => Substitute(t, Factory, factory)), (t => Substitute(t, PositionManager, manager)),
        (t => Substitute(t, Router, router));
      var want := Rewrite(text, factory, manager, router);
      && M(R(F(text))) == want
      && R(F(M(text))) == want
      && F(R(M(text))) == want
      && M(F(R(text))) == want
      && F(M(R(text))) == want
  {
    NamesAreSingleLine();
    NamesForeign();
    var f := Substitute(text, Factory, factory);
    var m := Substitute(text, PositionManager, manager);
    var r := Substitute(text, Router, router);
    // R(M(F)) == M(R(F))
    Commute(f, PositionManager, manager, Router, router);
    // F(M) == M(F), so R(F(M)) == R(M(F))
    Commute(text, Factory, factory, PositionManager, manager);
    // R(F(M)) == F(R(M))
    Commute(m, Factory, factory, Router, router);
    // F(R) == R(F), so M(F(R)) == M(R(F))
    Commute(text, Factory, factory, Router, router);
    // M(F(R)) == F(M(R))
    Commute(r, Factory, factory, PositionManager, manager);
  }

  /**
   Running the script on its own output changes nothing: the rewritten file
   is a fixed point, so the script can be re-run safely.
   */
  lemma RewriteIsFixedPoint(text: string, factory: string, manager: string, router: string)
    requires Ready(factory, manager, router)
    ensures Rewrite(Rewrite(text, factory, manager, router), factory, manager, router) ==
      Rewrite(text, factory, manager, router)
  {
    NamesAreSingleLine();
    NamesForeign();
    HexIsSingleLine(Factory, factory);
    HexIsSingleLine(PositionManager, manager);
    HexIsSingleLine(Router, router);
    var f := Substitute(text, Factory, factory);
    var fm := Substitute(f, PositionManager, manager);
    var out := Substitute(fm, Router, router);
    calc {
      Substitute(out, Factory, factory);
    == { Commute(fm, Factory, factory, Router, router); }
      Substitute(Substitute(fm, Factory, factory), Router, router);
    == { Commute(f, Factory, factory, PositionManager, manager); }
      Substitute(Substitute(Substitute(f, Factory, factory), PositionManager, manager), Router, router);
    == { SubstituteIdempotent(text, Factory, factory); }
      out;
    }
    calc {
      Substitute(out, PositionManager, manager);
    == { Commute(fm, PositionManager, manager, Router, router); }
      Substitute(Substitute(fm, PositionManager, manager), Router, router);
    == { SubstituteIdempotent(f, PositionManager, manager); }
      out;
    }
    SubstituteIdempotent(fm, Router, router);
  }

  /** With every bytecode present, the script keeps the file's line structure and its line terminators. */
  lemma RewriteByLine(text: string, factory: string, manager: string, router: string)
    requires SingleLine(Factory, factory) && SingleLine(PositionManager, manager) && SingleLine(Router, router)
    ensures var out := Rewrite(text, factory, manager, router);
      && |Lines(out)| == |Lines(text)|
      && Breaks(out) == Breaks(text)
      && Terminators(out) == Terminators(text)
      && forall i :: 0 <= i < |Lines(text)| ==> Lines(out)[i] == RewriteLine(Lines(text)[i], factory, manager, router)
  {
    var f := Substitute(text, Factory, factory);
    var fm := Substitute(f, PositionManager, manager);
    SubstituteByLine(text, Factory, factory);
    SubstituteByLine(f, PositionManager, manager);
    SubstituteByLine(fm, Router, router);
    SubstituteKeepsTerminators(text, Factory, factory);
    SubstituteKeepsTerminators(f, PositionManager, manager);
    SubstituteKeepsTerminators(fm, Router, router);
  }

  /** `slice(2)` drops the first two characters without checking that they are `0x`. */
  lemma StripExamples()
    ensures Strip("0xdeadbeef") == "deadbeef"
    ensures Strip("deadbeef") == "adbeef"
    ensures Strip("0") == ""
  {
  }

  /** A placeholder line with an old literal gets the new bytecode, and the rest of the line stays. */
  lemma LineExample()
    ensures SubstituteLine("UniswapV3Factory = hex'0000';", Factory, "0xabcd") == "UniswapV3Factory = hex'abcd';"
  {
    var line := "UniswapV3Factory = hex'0000';";
    assert line[..|Placeholder(Factory)|] == Placeholder(Factory);
    assert LineMatch(line, Placeholder(Factory), 0, 27);
    SubstituteLineShape(line, Factory, "0xabcd", 0, 27);
  }

  /** The match is not anchored: a longer name that ends in the placeholder's name is rewritten too. */
  lemma UnanchoredExample()
    ensures SubstituteLine("MyUniswapV3Factory = hex'00';", Factory, "0xab") == "MyUniswapV3Factory = hex'ab';"
  {
    UnanchoredMatch();
    SubstituteLineShape("MyUniswapV3Factory = hex'00';", Factory, "0xab", 2, 27);
  }

  lemma UnanchoredMatch()
    ensures LineMatch("MyUniswapV3Factory = hex'00';", Placeholder(Factory), 2, 27)
  {
    var pat := Placeholder(Factory);
    var line := "My" + pat + "00';";
    assert pat == "UniswapV3Factory = hex'";
    assert line == "MyUniswapV3Factory = hex'00';";
    assert line[2..2 + |pat|] == pat;
    assert line[0] != pat[0] && line[1] != pat[0];
  }
}
