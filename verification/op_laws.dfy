/** Laws of the comparison operators, as the documentation of `Op` in
    src/version_req.ts states them: how `=`, `>` and `<` partition the
    versions around a full comparator, the disjunctive operators, the
    equivalences of the partial forms of `~` and `^`, and the ranges that
    `~` and `^` stand for. */
module OpLaws {
  import opened Wrappers
  import opened Text
  import opened Semver
  import opened Order
  import opened Eval

  function CompareNat(a: nat, b: nat): (r: int)
    ensures r == -1 || r == 0 || r == 1
    ensures r == 0 <==> a == b
    ensures r < 0 <==> a < b
  {
    if a < b then -1 else if a > b then 1 else 0
  }

  /** Where `v` lies relative to the version `major.minor.patch-pre` that a
      full comparator names: the numbers from left to right, then the
      pre-releases. */
  function Precedence(v: Version, major: nat, minor: nat, patch: nat, pre: string): (r: int)
    ensures r == -1 || r == 0 || r == 1
    ensures r == 0 ==> v.major == major && v.minor == minor && v.patch == patch
  {
    if v.major != major then CompareNat(v.major, major)
    else if v.minor != minor then CompareNat(v.minor, minor)
    else if v.patch != patch then CompareNat(v.patch, patch)
    else ComparePre(v.pre, pre)
  }

  /** Against a comparator that sets all three numbers, `=`, `>` and `<`
      are the three outcomes of comparing with its version. */
  lemma FullComparatorTrichotomy(c: Comparator, v: Version)
    requires c.minor.Some? && c.patch.Some?
    ensures var p := Precedence(v, c.major, c.minor.value, c.patch.value, c.pre);
            && (MatchesExact(c, v) <==> p == 0)
            && (MatchesGreater(c, v) <==> p > 0)
            && (MatchesLess(c, v) <==> p < 0)
  {
  }

  /** No version matches two of `=`, `>` and `<` of the same comparator,
      whether or not its fields are set. */
  lemma ExactGreaterLessExclusive(c: Comparator, v: Version)
    ensures !(MatchesExact(c, v) && MatchesGreater(c, v))
    ensures !(MatchesExact(c, v) && MatchesLess(c, v))
    ensures !(MatchesGreater(c, v) && MatchesLess(c, v))
  {
  }

  /** `>=` is `=` or `>`, and `<=` is `=` or `<`. */
  lemma OrEqualIsDisjunction(c: Comparator, v: Version)
    ensures MatchesImpl(c.(op := GreaterEq), v)
        <==> MatchesImpl(c.(op := Exact), v) || MatchesImpl(c.(op := Greater), v)
    ensures MatchesImpl(c.(op := LessEq), v)
        <==> MatchesImpl(c.(op := Exact), v) || MatchesImpl(c.(op := Less), v)
  {
  }

  /** A wildcard comparator matches exactly as `=` with the same fields. */
  lemma WildcardIsExact(c: Comparator, v: Version)
    ensures MatchesImpl(c.(op := Wildcard), v) == MatchesImpl(c.(op := Exact), v)
    ensures MatchesComparator(c.(op := Wildcard), v) == MatchesComparator(c.(op := Exact), v)
  {
  }

  /** `~` and `^` never match another major number; `~` with a minor number
      never matches another minor number. */
  lemma TildeCaretKeepMajor(c: Comparator, v: Version)
    ensures MatchesImpl(c.(op := Tilde), v) ==> v.major == c.major
    ensures MatchesImpl(c.(op := Caret), v) ==> v.major == c.major
    ensures MatchesImpl(c.(op := Tilde), v) && c.minor.Some? ==> v.minor == c.minor.value
  {
  }

  /** Against the empty pre-release, "not below" and "equal" coincide: only
      a release compares equal to it, and every pre-release is below. */
  lemma AgainstRelease(pre: string)
    ensures ComparePre(pre, "") >= 0 <==> pre == ""
    ensures ComparePre(pre, "") == 0 <==> pre == ""
  {
  }

  /** `~I.J` is `=I.J`, and `~I` is `=I`. */
  lemma TildePartialIsExact(c: Comparator, v: Version)
    requires ValidComparator(c) && c.patch.None?
    ensures MatchesImpl(c.(op := Tilde), v) == MatchesImpl(c.(op := Exact), v)
  {
    AgainstRelease(v.pre);
  }

  /** `^I` is `=I`, and `^0.0` is `=0.0`, as comparators. */
  lemma CaretPartialIsExact(c: Comparator, v: Version)
    requires ValidComparator(c)
    requires c.minor.None? || (c.major == 0 && c.minor == Some(0) && c.patch.None?)
    ensures MatchesComparator(c.(op := Caret), v) == MatchesComparator(c.(op := Exact), v)
  {
    AgainstRelease(v.pre);
  }

  /** `^I.J` is `^I.J.0` when I or J is positive, as comparators. */
  lemma CaretMinorIsPatchZero(c: Comparator, v: Version)
    requires ValidComparator(c) && c.minor.Some? && c.patch.None?
    requires c.major > 0 || c.minor.value > 0
    ensures MatchesComparator(c.(op := Caret), v)
         == MatchesComparator(c.(op := Caret, patch := Some(0)), v)
  {
    AgainstRelease(v.pre);
  }

  /** `^I.J.K` with I > 0 allows everything up to the next major number:
      the same major, and not below `I.J.K`. */
  lemma CaretFullMajor(c: Comparator, v: Version)
    requires c.op == Caret && c.minor.Some? && c.patch.Some? && c.major > 0
    ensures MatchesImpl(c, v)
        <==> v.major == c.major && Precedence(v, c.major, c.minor.value, c.patch.value, c.pre) >= 0
  {
  }

  /** `^0.J.K` with J > 0 allows everything up to the next minor number:
      major 0, the same minor, and not below `0.J.K`. */
  lemma CaretFullMinor(c: Comparator, v: Version)
    requires c.op == Caret && c.minor.Some? && c.patch.Some? && c.major == 0 && c.minor.value > 0
    ensures MatchesImpl(c, v)
        <==> && v.major == 0 && v.minor == c.minor.value
             && Precedence(v, c.major, c.minor.value, c.patch.value, c.pre) >= 0
  {
  }

  /** `^0.0.K` allows only the numbers 0.0.K, with a pre-release not below
      the comparator's. */
  lemma CaretFullZero(c: Comparator, v: Version)
    requires c.op == Caret && c.minor == Some(0) && c.patch.Some? && c.major == 0
    ensures MatchesImpl(c, v)
        <==> v.major == 0 && v.minor == 0 && v.patch == c.patch.value && ComparePre(v.pre, c.pre) >= 0
  {
  }

  /** `^0.0.K` is `=0.0.K` when the comparator has no pre-release. */
  lemma CaretZeroIsExact(c: Comparator, v: Version)
    requires c.minor == Some(0) && c.patch.Some? && c.major == 0 && c.pre == ""
    ensures MatchesImpl(c.(op := Caret), v) == MatchesImpl(c.(op := Exact), v)
  {
    AgainstRelease(v.pre);
  }

  /** With a pre-release on the comparator, `^0.0.K-P` is not `=0.0.K-P`:
      `^0.0.1-alpha` matches 0.0.1-beta, `=0.0.1-alpha` does not. */
  lemma CaretZeroWithPreIsNotExact()
    ensures var c := Comparator(Caret, 0, Some(0), Some(1), "alpha");
            var v := Version(0, 0, 1, "beta", "");
            MatchesComparator(c, v) && !MatchesComparator(c.(op := Exact), v)
  {
    SplitNoDotLiteral();
    assert ComparePre("beta", "alpha") == 1;
  }

  lemma SplitNoDotLiteral()
    ensures Split("alpha") == ["alpha"] && Split("beta") == ["beta"]
  {
    SplitNoDot("alpha");
    SplitNoDot("beta");
  }

  /** The two comparators a range `>=lo, <hi` is written with. */
  function Range(lo: Comparator, hiMajor: nat, hiMinor: nat): (r: VersionReq)
    ensures |r.comparators| == 2
  {
    VersionReq([lo.(op := GreaterEq), Comparator(Less, hiMajor, Some(hiMinor), Some(0), "")])
  }

  /** `~I.J.K-P` is `>=I.J.K-P, <I.(J+1).0` as requirements. */
  lemma TildeFullIsRange(c: Comparator, v: Version)
    requires c.minor.Some? && c.patch.Some?
    ensures MatchesReq(VersionReq([c.(op := Tilde)]), v)
         == MatchesReq(Range(c, c.major, c.minor.value + 1), v)
  {
    RangeMatches(c, c.major, c.minor.value + 1, v);
    SingleMatches(c.(op := Tilde), v);
    AgainstRelease(v.pre);
  }

  /** `^I.J.K-P` with I > 0 is `>=I.J.K-P, <(I+1).0.0` as requirements. */
  lemma CaretFullMajorIsRange(c: Comparator, v: Version)
    requires c.minor.Some? && c.patch.Some? && c.major > 0
    ensures MatchesReq(VersionReq([c.(op := Caret)]), v)
         == MatchesReq(Range(c, c.major + 1, 0), v)
  {
    RangeMatches(c, c.major + 1, 0, v);
    SingleMatches(c.(op := Caret), v);
    AgainstRelease(v.pre);
  }

  /** `^0.J.K-P` with J > 0 is `>=0.J.K-P, <0.(J+1).0` as requirements. */
  lemma CaretFullMinorIsRange(c: Comparator, v: Version)
    requires c.minor.Some? && c.patch.Some? && c.major == 0 && c.minor.value > 0
    ensures MatchesReq(VersionReq([c.(op := Caret)]), v)
         == MatchesReq(Range(c, 0, c.minor.value + 1), v)
  {
    RangeMatches(c, 0, c.minor.value + 1, v);
    SingleMatches(c.(op := Caret), v);
    AgainstRelease(v.pre);
  }

  /** A comparator with no pre-release, from its operator and numbers. */
  function Plain(op: Op, major: nat, minor: Option<nat>, patch: Option<nat>): (c: Comparator)
    ensures c.pre == "" && c.op == op
    ensures minor.None? ==> c.minor.None?
  {
    Comparator(op, major, minor, patch, "")
  }

  /** `=I.J` is `>=I.J.0, <I.(J+1).0`, and `=I` is `>=I.0.0, <(I+1).0.0`. */
  lemma ExactPartialIsRange(i: nat, j: nat, v: Version)
    ensures MatchesComparator(Plain(Exact, i, Some(j), None), v)
         == MatchesReq(Range(Plain(GreaterEq, i, Some(j), Some(0)), i, j + 1), v)
    ensures MatchesComparator(Plain(Exact, i, None, None), v)
         == MatchesReq(Range(Plain(GreaterEq, i, Some(0), Some(0)), i + 1, 0), v)
  {
    RangeMatches(Plain(GreaterEq, i, Some(j), Some(0)), i, j + 1, v);
    RangeMatches(Plain(GreaterEq, i, Some(0), Some(0)), i + 1, 0, v);
    AgainstRelease(v.pre);
  }

  /** `>I.J` is `>=I.(J+1).0`, and `>I` is `>=(I+1).0.0`. */
  lemma GreaterPartial(i: nat, j: nat, v: Version)
    ensures MatchesComparator(Plain(Greater, i, Some(j), None), v)
         == MatchesComparator(Plain(GreaterEq, i, Some(j + 1), Some(0)), v)
    ensures MatchesComparator(Plain(Greater, i, None, None), v)
         == MatchesComparator(Plain(GreaterEq, i + 1, Some(0), Some(0)), v)
  {
    AgainstRelease(v.pre);
  }

  /** `>=I.J` is `>=I.J.0`, and `>=I` is `>=I.0.0`. */
  lemma GreaterEqPartial(i: nat, j: nat, v: Version)
    ensures MatchesComparator(Plain(GreaterEq, i, Some(j), None), v)
         == MatchesComparator(Plain(GreaterEq, i, Some(j), Some(0)), v)
    ensures MatchesComparator(Plain(GreaterEq, i, None, None), v)
         == MatchesComparator(Plain(GreaterEq, i, Some(0), Some(0)), v)
  {
    AgainstRelease(v.pre);
  }

  /** `<I.J` is `<I.J.0`, and `<I` is `<I.0.0`. */
  lemma LessPartial(i: nat, j: nat, v: Version)
    ensures MatchesComparator(Plain(Less, i, Some(j), None), v)
         == MatchesComparator(Plain(Less, i, Some(j), Some(0)), v)
    ensures MatchesComparator(Plain(Less, i, None, None), v)
         == MatchesComparator(Plain(Less, i, Some(0), Some(0)), v)
  {
    AgainstRelease(v.pre);
  }

  /** `<=I.J` is `<I.(J+1).0`, and `<=I` is `<(I+1).0.0`. */
  lemma LessEqPartial(i: nat, j: nat, v: Version)
    ensures MatchesComparator(Plain(LessEq, i, Some(j), None), v)
         == MatchesComparator(Plain(Less, i, Some(j + 1), Some(0)), v)
    ensures MatchesComparator(Plain(LessEq, i, None, None), v)
         == MatchesComparator(Plain(Less, i + 1, Some(0), Some(0)), v)
  {
    AgainstRelease(v.pre);
  }

  /** A requirement of one comparator, unfolded. */
  lemma SingleMatches(c: Comparator, v: Version)
    ensures MatchesReq(VersionReq([c]), v) <==> MatchesImpl(c, v) && (v.pre == "" || PreIsCompatible(c, v))
  {
    var cs := [c];
    assert cs[0] == c;
    if MatchesReq(VersionReq(cs), v) {
      assert MatchesImpl(cs[0], v);
    }
  }

  /** A range requirement, unfolded: both bounds match, and a pre-release
      is pinned by the lower bound (the upper bound has none). */
  lemma RangeMatches(lo: Comparator, hiMajor: nat, hiMinor: nat, v: Version)
    ensures MatchesReq(Range(lo, hiMajor, hiMinor), v)
        <==> && MatchesImpl(lo.(op := GreaterEq), v)
             && MatchesImpl(Comparator(Less, hiMajor, Some(hiMinor), Some(0), ""), v)
             && (v.pre == "" || PreIsCompatible(lo, v))
  {
    var cs := Range(lo, hiMajor, hiMinor).comparators;
    assert cs[0] == lo.(op := GreaterEq);
    if MatchesReq(Range(lo, hiMajor, hiMinor), v) {
      assert MatchesImpl(cs[0], v) && MatchesImpl(cs[1], v);
    }
  }
}
