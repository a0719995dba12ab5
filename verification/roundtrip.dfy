/** How the version parser and `Version.toString` invert each other: every
    accepted string is the rendering of its version, and every valid version
    parses back from its rendering. */
module RoundTrip {
  import opened Wrappers
  import opened Errors
  import opened Text
  import opened Semver
  import opened Parser

  /** Two digit runs that both end where the digits end are the same run. */
  lemma DigitRunUnique(a: string, ra: string, b: string, rb: string)
    requires AllDigits(a) && AllDigits(b)
    requires ra == "" || !IsDigit(ra[0])
    requires rb == "" || !IsDigit(rb[0])
    requires a + ra == b + rb
    ensures a == b && ra == rb
  {
    var t := a + ra;
    assert a == t[..|a|] && b == t[..|b|];
  }

  /** `numeric_identifier` reads back the rendering of any number followed by
      a non-digit. */
  lemma NumericIdentifierCanonical(n: nat, rest: string, pos: Position)
    requires rest == "" || !IsDigit(rest[0])
    ensures NumericIdentifier(NatToString(n) + rest, pos) == Success((n, rest))
  {
    var s := NatToString(n);
    var input := s + rest;
    assert input[0] == s[0];
    if |input| > 1 && input[0] == '0' {
      assert s == "0";
      assert input[1] == rest[0];
    }
    var r := NumericIdentifier(input, pos);
    DigitRunUnique(NatToString(r.value.0), r.value.1, s, rest);
    NatToStringInjective(r.value.0, n);
  }

  /** The three numbers read by the first half of the parser are rendered
      back to the text they were read from. */
  lemma NumbersThenFormat(text: string)
    requires ParseNumbers(text).Success?
    ensures var n := ParseNumbers(text).value;
            text == NumbersText(n.0, n.1, n.2) + n.3
  {
    var major := NumericIdentifier(text, Major).value;
    var t1 := Dot(major.1, Major).value;
    var minor := NumericIdentifier(t1, Minor).value;
    var t2 := Dot(minor.1, Minor).value;
    var patch := NumericIdentifier(t2, Patch).value;
    DottedAssoc(NatToString(major.0), NatToString(minor.0), NatToString(patch.0), patch.1);
  }

  /** Regrouping of the rendering `a.b.c` followed by a rest. */
  lemma DottedAssoc(a: string, b: string, c: string, rest: string)
    ensures a + ("." + (b + ("." + (c + rest)))) == a + "." + b + "." + c + rest
  {
  }

  /** The sections after the patch number are rendered back to the text they
      were read from, and are valid. */
  lemma SectionsThenFormat(major: nat, minor: nat, patch: nat, text: string)
    requires ParseSections(major, minor, patch, text).Success?
    ensures var v := ParseSections(major, minor, patch, text).value;
            && v.major == major && v.minor == minor && v.patch == patch
            && text == Tagged('-', v.pre) + Tagged('+', v.build)
            && ValidVersion(v)
  {
  }

  /** Every accepted string is the rendering of the version it parses to, and
      that version satisfies the data-model invariant. */
  lemma ParseThenFormat(text: string)
    requires ParseVersion(text).Success?
    ensures ParseVersion(text).value.ToString() == text
    ensures ValidVersion(ParseVersion(text).value)
  {
    var n := ParseNumbers(text).value;
    var v := ParseVersion(text).value;
    assert v == ParseSections(n.0, n.1, n.2, n.3).value;
    NumbersThenFormat(text);
    SectionsThenFormat(n.0, n.1, n.2, n.3);
    var head := NumbersText(n.0, n.1, n.2);
    Assoc3(head, Tagged('-', v.pre), Tagged('+', v.build));
  }

  /** `dot` consumes exactly the one '.'. */
  lemma DotOf(rest: string, pos: Position)
    ensures Dot("." + rest, pos) == Success(rest)
  {
    assert ("." + rest)[1..] == rest;
  }

  /** The first half of the parser reads back three rendered numbers
      followed by anything that does not start with a digit. */
  lemma FormatThenNumbers(major: nat, minor: nat, patch: nat, rest: string)
    requires rest == "" || !IsDigit(rest[0])
    ensures ParseNumbers(NumbersText(major, minor, patch) + rest) == Success((major, minor, patch, rest))
  {
    var c := NatToString(patch) + rest;
    var b := NatToString(minor) + ("." + c);
    var a := NatToString(major) + ("." + b);
    DottedAssoc(NatToString(major), NatToString(minor), NatToString(patch), rest);
    NumericIdentifierCanonical(major, "." + b, Major);
    DotOf(b, Major);
    NumericIdentifierCanonical(minor, "." + c, Minor);
    DotOf(c, Minor);
    NumericIdentifierCanonical(patch, rest, Patch);
  }

  /** A section reads back its marker and a valid identifier followed by a
      character that cannot continue it. */
  lemma SectionRead(marker: char, id: string, rest: string, pos: Position)
    requires id != "" && ValidIdentifier(id, pos) && Stops(rest)
    ensures Section([marker] + id + rest, marker, pos) == Success((id, rest))
  {
    var text := [marker] + id + rest;
    assert text[1..] == id + rest;
    SegmentsComplete(id, rest, pos, true);
  }

  /** After three rendered numbers, parsing is decided by the sections. */
  lemma ParseAfterNumbers(major: nat, minor: nat, patch: nat, text: string)
    requires text == "" || !IsDigit(text[0])
    ensures ParseVersion(NumbersText(major, minor, patch) + text) == ParseSections(major, minor, patch, text)
  {
    FormatThenNumbers(major, minor, patch, text);
  }

  /** The second half of the parser reads back the sections of any version
      satisfying the invariant. */
  lemma FormatThenSections(v: Version)
    requires ValidVersion(v)
    ensures ParseSections(v.major, v.minor, v.patch,
              Tagged('-', v.pre) + Tagged('+', v.build))
         == Success(v)
  {
    var preText := Tagged('-', v.pre);
    var buildText := Tagged('+', v.build);
    var t3 := preText + buildText;
    if t3 != "" {
      assert Stops(buildText);
      if v.pre != "" {
        SectionRead('-', v.pre, buildText, Pre);
      } else {
        assert t3 == buildText;
      }
      if v.build != "" {
        SectionRead('+', v.build, "", Build);
        assert buildText == ['+'] + v.build + "";
      }
    }
  }

  /** Every version satisfying the invariant parses back from its rendering. */
  lemma FormatThenParse(v: Version)
    requires ValidVersion(v)
    ensures ParseVersion(v.ToString()) == Success(v)
  {
    var preText := Tagged('-', v.pre);
    var buildText := Tagged('+', v.build);
    var t3 := preText + buildText;
    var head := NumbersText(v.major, v.minor, v.patch);
    Assoc3(head, preText, buildText);
    assert t3 == "" || t3[0] == '-' || t3[0] == '+';
    FormatThenNumbers(v.major, v.minor, v.patch, t3);
    FormatThenSections(v);
  }

  /** Distinct accepted strings parse to distinct versions: equality of
      versions includes the pre-release and the build metadata. */
  lemma ParseInjective(s: string, t: string)
    requires ParseVersion(s).Success? && ParseVersion(t).Success?
    requires s != t
    ensures ParseVersion(s).value != ParseVersion(t).value
  {
    ParseThenFormat(s);
    ParseThenFormat(t);
  }
}
