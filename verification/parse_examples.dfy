/** The parser on the inputs of the original's test suite, derived from the
    general lemmas: each expected error or version follows from a lemma
    about all inputs of its shape. */
module ParseExamples {
  import opened Wrappers
  import opened Errors
  import opened Text
  import opened Semver
  import opened Parser
  import opened RoundTrip
  import opened ParseErrors

  lemma ExampleOnlyMajor()
    ensures ParseVersion("1") == Failure(UnexpectedEnd(Major))
  {
    ParseMajorOnly(1);
  }

  lemma ExampleNoPatch()
    ensures ParseVersion("1.2") == Failure(UnexpectedEnd(Minor))
  {
    ParseMajorMinor(1, 2);
  }

  lemma ExampleLetters()
    ensures ParseVersion("a.b.c") == Failure(UnexpectedChar(Major, 'a'))
    ensures ParseVersion("  ") == Failure(UnexpectedChar(Major, ' '))
  {
  }

  lemma ExampleEmptyPre()
    ensures ParseVersion("1.2.3-") == Failure(EmptySegment(Pre))
  {
    RenderEmptyPre();
    ParseEmptySection(1, 2, 3, '-', "");
  }

  lemma RenderEmptyPre()
    ensures NumbersText(1, 2, 3) + (['-'] + "") == "1.2.3-"
  {
  }

  lemma ExampleTrailing()
    ensures ParseVersion("1.2.3 abc") == Failure(UnexpectedCharAfter(Patch, ' '))
  {
    RenderTrailing();
    ParseTrailingInput(NewVersion(1, 2, 3), " abc");
  }

  lemma RenderTrailing()
    ensures NewVersion(1, 2, 3).ToString() + " abc" == "1.2.3 abc"
  {
  }

  lemma ExamplePreLeadingZero()
    ensures ParseVersion("1.2.3-01") == Failure(LeadingZero(Pre))
  {
    RenderPreLeadingZero();
    ParsePreLeadingZero(1, 2, 3, "01", "");
  }

  lemma RenderPreLeadingZero()
    ensures NumbersText(1, 2, 3) + ("-" + ("01" + "")) == "1.2.3-01"
  {
  }

  /** A dot-free literal segment is a valid identifier of its own. */
  lemma SegmentLiteral(seg: string, pos: Position)
    requires SegmentOk(seg, pos)
    ensures ValidIdentifier(seg, pos)
  {
    assert '.' !in seg by {
      assert !IsIdentChar('.');
    }
    ValidIdentifierSingle(seg, pos);
  }

  lemma ExampleBuildLeadingZero()
    ensures ParseVersion("0.4.0-beta.1+0851523") == Success(Version(0, 4, 0, "beta.1", "0851523"))
  {
    var v := Version(0, 4, 0, "beta.1", "0851523");
    ValidBuildLeadingZero();
    RenderBuildLeadingZero();
    FormatThenParse(v);
  }

  lemma ValidBuildLeadingZero()
    ensures ValidVersion(Version(0, 4, 0, "beta.1", "0851523"))
  {
    ValidBetaOne();
    SegmentLiteral("0851523", Build);
  }

  lemma ValidBetaOne()
    ensures ValidIdentifier("beta.1", Pre)
  {
    DottedBetaOne();
    SegmentLiteral("1", Pre);
    ValidIdentifierCons("beta", "1", Pre);
  }

  lemma DottedBetaOne()
    ensures "beta" + "." + "1" == "beta.1"
  {
  }

  lemma RenderBuildLeadingZero()
    ensures Version(0, 4, 0, "beta.1", "0851523").ToString() == "0.4.0-beta.1+0851523"
  {
  }

  lemma ExampleHyphenated()
    ensures ParseVersion("1.1.0-beta-10") == Success(Version(1, 1, 0, "beta-10", ""))
  {
    var v := Version(1, 1, 0, "beta-10", "");
    SegmentLiteral("beta-10", Pre);
    RenderHyphenated();
    FormatThenParse(v);
  }

  lemma RenderHyphenated()
    ensures Version(1, 1, 0, "beta-10", "").ToString() == "1.1.0-beta-10"
  {
  }
}
