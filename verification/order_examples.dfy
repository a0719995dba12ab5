/** The ordering on the examples of the documentation of `Version`, each
    derived from how the strings split into parts. */
module OrderExamples {
  import opened Text
  import opened Order

  /** Two dot-free parts joined by '.' split back into the two parts. */
  lemma SplitTwo(s: string, x: string, y: string)
    requires s == x + "." + y && '.' !in x && '.' !in y
    ensures Split(s) == [x, y]
  {
    SplitCons(x, y);
    SplitNoDot(y);
  }

  /** Two versions of two parts each compare by their first parts, then by
      their second parts. */
  lemma TwoByTwo(a: string, b: string, x1: string, y1: string, x2: string, y2: string)
    requires Split(a) == [x1, y1] && Split(b) == [x2, y2]
    requires a != "" && b != "" && x2 != "" && y2 != ""
    ensures ComparePre(a, b)
         == (var c := ComparePreSegment(x1, x2); if c != 0 then c else ComparePreSegment(y1, y2))
  {
    var ps, qs := [x1, y1], [x2, y2];
    assert ps[1..] == [y1] && qs[1..] == [y2];
    assert [y1][1..] == [] && [y2][1..] == [];
    var last := CompareParts([y1], [y2], PreRelease);
    assert last == (var c := ComparePreSegment(y1, y2); if c != 0 then c else CompareParts([], [], PreRelease));
    assert CompareParts(ps, qs, PreRelease)
        == (var c := ComparePreSegment(x1, x2); if c != 0 then c else last);
  }

  /** One part against two: the first parts decide, else the longer list
      sorts higher. */
  lemma OneByTwo(a: string, b: string, x1: string, x2: string, y2: string)
    requires Split(a) == [x1] && Split(b) == [x2, y2]
    requires a != "" && b != "" && x2 != ""
    ensures ComparePre(a, b) == (var c := ComparePreSegment(x1, x2); if c != 0 then c else -1)
  {
    var ps, qs := [x1], [x2, y2];
    assert ps[1..] == [] && qs[1..] == [y2];
    assert CompareParts(ps, qs, PreRelease)
        == (var c := ComparePreSegment(x1, x2); if c != 0 then c else CompareParts([], [y2], PreRelease));
  }

  /** Two parts against one: the first parts decide, else the longer list
      sorts higher. */
  lemma TwoByOne(a: string, b: string, x1: string, y1: string, x2: string)
    requires Split(a) == [x1, y1] && Split(b) == [x2]
    requires a != "" && b != "" && x2 != ""
    ensures ComparePre(a, b) == (var c := ComparePreSegment(x1, x2); if c != 0 then c else 1)
  {
    var ps, qs := [x1, y1], [x2];
    assert ps[1..] == [y1] && qs[1..] == [];
    assert CompareParts(ps, qs, PreRelease)
        == (var c := ComparePreSegment(x1, x2); if c != 0 then c else CompareParts([y1], [], PreRelease));
  }

  lemma AlphaBelowAlpha1()
    ensures ComparePre("alpha", "alpha.1") == -1
  {
    SplitNoDot("alpha");
    SplitTwo("alpha.1", "alpha", "1");
    OneByTwo("alpha", "alpha.1", "alpha", "alpha", "1");
    assert ComparePreSegment("alpha", "alpha") == 0;
  }

  lemma Alpha1BelowAlphaBeta()
    ensures ComparePre("alpha.1", "alpha.beta") == -1
  {
    SplitTwo("alpha.1", "alpha", "1");
    SplitTwo("alpha.beta", "alpha", "beta");
    TwoByTwo("alpha.1", "alpha.beta", "alpha", "1", "alpha", "beta");
    assert ComparePreSegment("alpha", "alpha") == 0;
    assert ComparePreSegment("1", "beta") == -1;
  }

  lemma AlphaBetaBelowBeta()
    ensures ComparePre("alpha.beta", "beta") == -1
  {
    SplitTwo("alpha.beta", "alpha", "beta");
    SplitNoDot("beta");
    TwoByOne("alpha.beta", "beta", "alpha", "beta", "beta");
    assert ComparePreSegment("alpha", "beta") == -1;
  }

  lemma BetaBelowBeta2()
    ensures ComparePre("beta", "beta.2") == -1
  {
    SplitNoDot("beta");
    SplitTwo("beta.2", "beta", "2");
    OneByTwo("beta", "beta.2", "beta", "beta", "2");
    assert ComparePreSegment("beta", "beta") == 0;
  }

  lemma Beta2BelowBeta11()
    ensures ComparePre("beta.2", "beta.11") == -1
  {
    SplitTwo("beta.2", "beta", "2");
    SplitTwo("beta.11", "beta", "11");
    TwoByTwo("beta.2", "beta.11", "beta", "2", "beta", "11");
    assert ComparePreSegment("beta", "beta") == 0;
    assert ComparePreSegment("2", "11") == -1;
  }

  lemma Beta11BelowRc1()
    ensures ComparePre("beta.11", "rc.1") == -1
  {
    SplitTwo("beta.11", "beta", "11");
    SplitTwo("rc.1", "rc", "1");
    TwoByTwo("beta.11", "rc.1", "beta", "11", "rc", "1");
    assert ComparePreSegment("beta", "rc") == -1;
  }

  /** Any pre-release sorts below the release of the same numbers. */
  lemma Rc1BelowRelease()
    ensures ComparePre("rc.1", "") == -1
  {
  }

  /** Parts with a letter compare in ASCII order. */
  lemma Pre12BelowPre8()
    ensures ComparePre("pre12", "pre8") == -1
  {
    SplitNoDot("pre12");
    SplitNoDot("pre8");
    assert ComparePreSegment("pre12", "pre8") == -1;
  }

  /** A numeric part sorts below a part with letters. */
  lemma Pre1BelowPreX()
    ensures ComparePre("pre.1", "pre.x") == -1
  {
    SplitTwo("pre.1", "pre", "1");
    SplitTwo("pre.x", "pre", "x");
    TwoByTwo("pre.1", "pre.x", "pre", "1", "pre", "x");
    assert ComparePreSegment("pre", "pre") == 0;
    assert ComparePreSegment("1", "x") == -1;
  }

  /** Parts of more than one digit are not numeric: `pre.100` sorts below
      `pre.12`, as the strings "100" and "12" do, and the same holds for
      build metadata. */
  lemma MultiDigitPartsAreStrings()
    ensures ComparePre("pre.100", "pre.12") == -1
    ensures CompareBuild("pre.100", "pre.12") == -1
  {
    SplitTwo("pre.100", "pre", "100");
    SplitTwo("pre.12", "pre", "12");
    TwoByTwo("pre.100", "pre.12", "pre", "100", "pre", "12");
    assert ComparePreSegment("pre", "pre") == 0;
    assert ComparePreSegment("100", "12") == -1;
    BuildIsPre("pre.100", "pre.12");
  }
}
