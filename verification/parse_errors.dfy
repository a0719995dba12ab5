/** Which error `parse_version` reports on each characteristic malformed
    input: where the numbers run out, where a section is empty, where a
    pre-release numeral has a leading zero, and where input is left over. */
module ParseErrors {
  import opened Wrappers
  import opened Errors
  import opened Text
  import opened Semver
  import opened Parser
  import opened RoundTrip

  /** The empty string fails before the major number. */
  lemma ParseEmpty()
    ensures ParseVersion("") == Failure(UnexpectedEnd(Major))
  {
  }

  /** A lone number fails at the '.' that should follow the major number. */
  lemma ParseMajorOnly(major: nat)
    ensures ParseVersion(NatToString(major)) == Failure(UnexpectedEnd(Major))
  {
    NumericIdentifierCanonical(major, "", Major);
    assert NatToString(major) + "" == NatToString(major);
  }

  /** Two numbers fail at the '.' that should follow the minor number. */
  lemma ParseMajorMinor(major: nat, minor: nat)
    ensures ParseVersion(NatToString(major) + "." + NatToString(minor)) == Failure(UnexpectedEnd(Minor))
  {
    var m := NatToString(minor);
    var t := NatToString(major) + ("." + m);
    Assoc3(NatToString(major), ".", m);
    NumericIdentifierCanonical(major, "." + m, Major);
    DotOf(m, Major);
    assert m + "" == m;
    NumericIdentifierCanonical(minor, "", Minor);
    assert ParseNumbers(t) == Failure(UnexpectedEnd(Minor));
  }

  /** A number position that starts with something other than a digit is an
      unexpected character in that position (here the minor number). */
  lemma ParseMinorNotDigit(major: nat, rest: string)
    requires rest != "" && !IsDigit(rest[0])
    ensures ParseVersion(NatToString(major) + "." + rest) == Failure(UnexpectedChar(Minor, rest[0]))
  {
    var t := NatToString(major) + ("." + rest);
    Assoc3(NatToString(major), ".", rest);
    NumericIdentifierCanonical(major, "." + rest, Major);
    DotOf(rest, Major);
    assert ParseNumbers(t) == Failure(UnexpectedChar(Minor, rest[0]));
  }

  /** A number followed by something other than '.' where a '.' is due is an
      unexpected character after that number (here the major number). */
  lemma ParseMajorNoDot(major: nat, rest: string)
    requires rest != "" && !IsDigit(rest[0]) && rest[0] != '.'
    ensures ParseVersion(NatToString(major) + rest) == Failure(UnexpectedCharAfter(Major, rest[0]))
  {
    NumericIdentifierCanonical(major, rest, Major);
  }

  /** A major number of more than one digit starting with '0' is rejected. */
  lemma ParseMajorLeadingZero(d: char, rest: string)
    requires IsDigit(d)
    ensures ParseVersion("0" + [d] + rest) == Failure(LeadingZero(Major))
  {
    var t := "0" + [d] + rest;
    assert t[0] == '0' && t[1] == d;
  }

  /** A '-' or '+' that is not followed by a segment is an empty segment in
      the section it opens. */
  lemma ParseEmptySection(major: nat, minor: nat, patch: nat, marker: char, rest: string)
    requires marker == '-' || marker == '+'
    requires rest == "" || !IsIdentChar(rest[0])
    ensures ParseVersion(NumbersText(major, minor, patch) + ([marker] + rest))
         == Failure(EmptySegment(if marker == '-' then Pre else Build))
  {
    var text := [marker] + rest;
    var pos := if marker == '-' then Pre else Build;
    ParseAfterNumbers(major, minor, patch, text);
    SectionEmpty(marker, rest, pos);
    if marker == '+' {
      assert Section(text, '-', Pre) == Success(("", text));
    }
  }

  /** A section marker followed by no segment. */
  lemma SectionEmpty(marker: char, rest: string, pos: Position)
    requires rest == "" || !IsIdentChar(rest[0])
    ensures Section([marker] + rest, marker, pos) == Failure(EmptySegment(pos))
  {
    var text := [marker] + rest;
    assert text[1..] == rest;
    if rest != "" && rest[0] == '.' {
      IdentifierLeadingDot(rest[1..], pos);
      assert rest == "." + rest[1..];
    } else {
      assert IdentRunLen(rest) == 0;
    }
  }

  /** A pre-release whose last segment is followed by a '.' that does not
      start another segment (a trailing or doubled dot) is an empty segment. */
  lemma ParsePreDanglingDot(major: nat, minor: nat, patch: nat, pre: string, rest: string)
    requires ValidIdentifier(pre, Pre)
    requires rest == "" || !IsIdentChar(rest[0])
    ensures ParseVersion(NumbersText(major, minor, patch) + ("-" + (pre + "." + rest)))
         == Failure(EmptySegment(Pre))
  {
    var body := pre + "." + rest;
    var text := "-" + body;
    ParseAfterNumbers(major, minor, patch, text);
    assert text[1..] == body;
    SegmentsDotWithoutSegment(pre, rest, Pre, true);
  }

  /** A pre-release that starts with a numeral with a leading zero is
      rejected. */
  lemma ParsePreLeadingZero(major: nat, minor: nat, patch: nat, seg: string, rest: string)
    requires LeadingZeroSegment(seg)
    requires rest == "" || !IsIdentChar(rest[0])
    ensures ParseVersion(NumbersText(major, minor, patch) + ("-" + (seg + rest)))
         == Failure(LeadingZero(Pre))
  {
    var text := "-" + (seg + rest);
    ParseAfterNumbers(major, minor, patch, text);
    assert text[1..] == seg + rest;
    IdentifierLeadingZero(seg, rest);
  }

  /** The same leading-zero segment is accepted as build metadata. */
  lemma ParseBuildLeadingZero(major: nat, minor: nat, patch: nat, seg: string)
    requires LeadingZeroSegment(seg)
    ensures ParseVersion(NumbersText(major, minor, patch) + ("+" + seg))
         == Success(Version(major, minor, patch, "", seg))
  {
    var text := "+" + seg;
    ParseAfterNumbers(major, minor, patch, text);
    assert text[1..] == seg + "";
    IdentifierLeadingZero(seg, "");
  }

  /** Reading the sections of a valid version followed by further text: the
      pre-release section stops at the build or at the further text, and the
      build section stops at the further text. */
  lemma SectionsBeforeRest(v: Version, rest: string)
    requires ValidVersion(v)
    requires rest == "" || (!IsIdentChar(rest[0]) && rest[0] != '.' && (v.build == "" ==> rest[0] != '+'))
    ensures Section(Tagged('-', v.pre) + (Tagged('+', v.build) + rest), '-', Pre) == Success((v.pre, Tagged('+', v.build) + rest))
    ensures Section(Tagged('+', v.build) + rest, '+', Build) == Success((v.build, rest))
  {
    var buildText := Tagged('+', v.build);
    var preText := Tagged('-', v.pre);
    assert Stops(rest);
    if v.pre != "" {
      assert Stops(buildText + rest) by {
        if buildText != "" {
          assert (buildText + rest)[0] == '+';
        }
      }
      SectionRead('-', v.pre, buildText + rest, Pre);
      assert preText + (buildText + rest) == ['-'] + v.pre + (buildText + rest);
    } else {
      assert preText + (buildText + rest) == buildText + rest;
      if buildText != "" {
        assert (buildText + rest)[0] == '+';
      }
    }
    if v.build != "" {
      SectionRead('+', v.build, rest, Build);
      assert buildText + rest == ['+'] + v.build + rest;
    } else {
      assert buildText + rest == rest;
    }
  }

  /** Input left over after a complete version is an unexpected character
      after the last part present: the build metadata, else the pre-release,
      else the patch number. */
  lemma ParseTrailingInput(v: Version, rest: string)
    requires ValidVersion(v)
    requires rest != ""
    requires v.pre != "" || v.build != "" ==> !IsIdentChar(rest[0]) && rest[0] != '.'
    requires v.pre == "" && v.build == "" ==> !IsDigit(rest[0]) && rest[0] != '-'
    requires v.build == "" ==> rest[0] != '+'
    ensures ParseVersion(v.ToString() + rest)
         == Failure(UnexpectedCharAfter(LeftoverPosition(v.pre, v.build), rest[0]))
  {
    if v.pre == "" && v.build == "" {
      assert v.ToString() + rest == NumbersText(v.major, v.minor, v.patch) + rest;
      ParseAfterNumbers(v.major, v.minor, v.patch, rest);
      return;
    }
    var t3 := Tagged('-', v.pre) + (Tagged('+', v.build) + rest);
    Assoc4(NumbersText(v.major, v.minor, v.patch), Tagged('-', v.pre), Tagged('+', v.build), rest);
    assert !IsDigit(t3[0]) by {
      if Tagged('-', v.pre) != "" {
        assert t3[0] == '-';
      } else {
        assert t3[0] == '+';
      }
    }
    ParseAfterNumbers(v.major, v.minor, v.patch, t3);
    SectionsBeforeRest(v, rest);
  }

  /** A fourth number after a version without pre-release or build is
      leftover input: the '.' is an unexpected character after the patch. */
  lemma ParseFourthNumber(major: nat, minor: nat, patch: nat, more: string)
    ensures ParseVersion(NumbersText(major, minor, patch) + "." + more)
         == Failure(UnexpectedCharAfter(Patch, '.'))
  {
    var v := NewVersion(major, minor, patch);
    assert v.ToString() == NumbersText(major, minor, patch);
    Assoc3(NumbersText(major, minor, patch), ".", more);
    ParseTrailingInput(v, "." + more);
  }
}
