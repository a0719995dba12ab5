/** The formatter of src/display.ts: versions, comparators and requirements
    rendered as text. A comparator prints its operator symbol and the fields
    it sets; a wildcard prints `.*` in place of the first unset field; build
    metadata is never printed. */
module Display {
  import opened Wrappers
  import opened Errors
  import opened Text
  import opened Semver
  import opened Parser
  import opened RoundTrip

  /** `format_version`: the three numbers, then `-pre` when the pre-release
      is non-empty, then `+build` when the build is non-empty. */
  function FormatVersion(v: Version): (s: string)
    ensures s == v.ToString()
  {
    var numbers := NatToString(v.major) + "." + NatToString(v.minor) + "." + NatToString(v.patch);
    var withPre := if v.pre != "" then numbers + "-" + v.pre else numbers;
    if v.build != "" then withPre + "+" + v.build else withPre
  }

  /** Formatting then parsing gives back every version the parser can
      produce. */
  lemma FormatVersionRoundTrip(v: Version)
    requires ValidVersion(v)
    ensures ParseVersion(FormatVersion(v)) == Success(v)
  {
    FormatThenParse(v);
  }

  /** The symbol printed for an operator: a wildcard has none, its `*` is
      printed after the numbers. */
  function OpSymbol(op: Op): (s: string)
    ensures |s| <= 2
    ensures s == "" <==> op == Wildcard
    ensures forall i | 0 <= i < |s| :: s[i] in "=<>~^"
  {
    match op
    case Exact => "="
    case Greater => ">"
    case GreaterEq => ">="
    case Less => "<"
    case LessEq => "<="
    case Tilde => "~"
    case Caret => "^"
    case Wildcard => ""
  }

  /** Distinct operators print distinct symbols. */
  lemma OpSymbolInjective(a: Op, b: Op)
    requires OpSymbol(a) == OpSymbol(b)
    ensures a == b
  {
    var sa, sb := OpSymbol(a), OpSymbol(b);
    if |sa| > 0 {
      assert sa[0] == sb[0];
    }
    if |sa| > 1 {
      assert sa[1] == sb[1];
    }
  }

  /** `format_comparator`. The pre-release is printed only after a patch
      number; a wildcard with an unset minor or patch ends in `.*`. */
  function FormatComparator(c: Comparator): (s: string)
    ensures |s| > |OpSymbol(c.op)| && s[..|OpSymbol(c.op)|] == OpSymbol(c.op)
    ensures IsDigit(s[|OpSymbol(c.op)|])
  {
    var head := OpSymbol(c.op) + NatToString(c.major);
    assert head[|OpSymbol(c.op)|] == NatToString(c.major)[0];
    if c.minor.Some? then
      var withMinor := head + "." + NatToString(c.minor.value);
      if c.patch.Some? then
        var withPatch := withMinor + "." + NatToString(c.patch.value);
        if c.pre != "" then withPatch + "-" + c.pre else withPatch
      else if c.op == Wildcard then withMinor + ".*"
      else withMinor
    else if c.op == Wildcard then head + ".*"
    else head
  }

  /** A character that is no digit appears in no numeral. */
  lemma NotInNumeral(x: char, n: nat)
    requires !IsDigit(x)
    ensures x !in NatToString(n)
  {
    var t := NatToString(n);
    assert forall i | 0 <= i < |t| :: t[i] != x;
  }

  /** A character that is no operator character appears in no symbol. */
  lemma NotInSymbol(x: char, op: Op)
    requires x !in "=<>~^"
    ensures x !in OpSymbol(op)
  {
  }

  /** The characters `-`, `*` and `+` appear in a rendered comparator only
      where the formatter writes them: `-` exactly when minor and patch are
      set and the pre-release is non-empty, `*` exactly for a wildcard with
      an unset minor or patch, and `+` never (build metadata is not
      printed), unless the pre-release itself holds them. */
  lemma ComparatorTextMarkers(c: Comparator)
    ensures '-' !in c.pre
        ==> ('-' in FormatComparator(c) <==> c.minor.Some? && c.patch.Some? && c.pre != "")
    ensures '*' !in c.pre
        ==> ('*' in FormatComparator(c) <==> c.op == Wildcard && (c.minor.None? || c.patch.None?))
    ensures '+' !in c.pre ==> '+' !in FormatComparator(c)
  {
    var head := OpSymbol(c.op) + NatToString(c.major);
    forall x | x in "-*+"
      ensures x !in head
    {
      NotInSymbol(x, c.op);
      NotInNumeral(x, c.major);
    }
    var s := FormatComparator(c);
    if c.minor.Some? {
      var withMinor := head + "." + NatToString(c.minor.value);
      forall x | x in "-*+"
        ensures x !in withMinor
      {
        NotInNumeral(x, c.minor.value);
      }
      if c.patch.Some? {
        var withPatch := withMinor + "." + NatToString(c.patch.value);
        forall x | x in "-*+"
          ensures x !in withPatch
        {
          NotInNumeral(x, c.patch.value);
        }
        if c.pre != "" {
          assert s == withPatch + "-" + c.pre && s[|withPatch|] == '-';
        } else {
          assert s == withPatch;
        }
      } else if c.op == Wildcard {
        assert s == withMinor + ".*" && s[|s| - 1] == '*';
      } else {
        assert s == withMinor;
      }
    } else if c.op == Wildcard {
      assert s == head + ".*" && s[|s| - 1] == '*';
    } else {
      assert s == head;
    }
  }

  /** A comparator that sets all three numbers prints its operator followed
      by the version it names, without build metadata. */
  lemma FullComparatorText(c: Comparator)
    requires c.minor.Some? && c.patch.Some?
    ensures FormatComparator(c)
         == OpSymbol(c.op) + Version(c.major, c.minor.value, c.patch.value, c.pre, "").ToString()
  {
  }

  /** The two wildcard forms: `M.*` and `M.m.*`. */
  lemma WildcardText(major: nat, minor: nat)
    ensures FormatComparator(Comparator(Wildcard, major, None, None, "")) == NatToString(major) + ".*"
    ensures FormatComparator(Comparator(Wildcard, major, Some(minor), None, ""))
         == NatToString(major) + "." + NatToString(minor) + ".*"
  {
    assert OpSymbol(Wildcard) + NatToString(major) == NatToString(major);
  }

  /** The renderings of a list of comparators, in order. */
  function FormatAll(cs: seq<Comparator>): (ts: seq<string>)
    ensures |ts| == |cs|
    ensures forall i | 0 <= i < |cs| :: ts[i] == FormatComparator(cs[i])
  {
    seq(|cs|, i requires 0 <= i < |cs| => FormatComparator(cs[i]))
  }

  /** Strings joined with ", " between neighbours, as `join(', ')`. */
  function JoinComma(parts: seq<string>): string
    requires |parts| > 0
  {
    if |parts| == 1 then parts[0] else parts[0] + ", " + JoinComma(parts[1..])
  }

  /** `format_version_req`: `*` for no comparators, otherwise the
      comparators joined with ", ". Only `*` renders as "*". */
  function FormatVersionReq(r: VersionReq): (s: string)
    ensures s == "*" <==> |r.comparators| == 0
  {
    if |r.comparators| == 0 then "*"
    else
      var s := JoinComma(FormatAll(r.comparators));
      JoinCommaHead(FormatAll(r.comparators));
      s
  }

  /** A joined list begins with its first element. */
  lemma {:induction false} JoinCommaHead(parts: seq<string>)
    requires |parts| > 0
    ensures |JoinComma(parts)| >= |parts[0]| && JoinComma(parts)[..|parts[0]|] == parts[0]
  {
    if |parts| > 1 {
      var rest := JoinComma(parts[1..]);
      assert JoinComma(parts) == parts[0] + (", " + rest);
    }
  }

  /** Joining two non-empty lists is joining their joins. */
  lemma {:induction false} JoinCommaAppend(p: seq<string>, q: seq<string>)
    requires |p| > 0 && |q| > 0
    ensures JoinComma(p + q) == JoinComma(p) + ", " + JoinComma(q)
    decreases |p|
  {
    if |p| == 1 {
      assert (p + q)[1..] == q;
    } else {
      assert (p + q)[1..] == p[1..] + q;
      JoinCommaAppend(p[1..], q);
    }
  }

  /** The requirement `*` renders as "*". */
  lemma StarText()
    ensures FormatVersionReq(STAR) == "*"
  {
  }

  /** Rendering a requirement made of two non-empty parts joins their
      renderings with ", ". */
  lemma ReqTextConcat(p: seq<Comparator>, q: seq<Comparator>)
    requires |p| > 0 && |q| > 0
    ensures FormatVersionReq(VersionReq(p + q))
         == FormatVersionReq(VersionReq(p)) + ", " + FormatVersionReq(VersionReq(q))
  {
    FormatAllAppend(p, q);
    JoinCommaAppend(FormatAll(p), FormatAll(q));
  }

  lemma FormatAllAppend(p: seq<Comparator>, q: seq<Comparator>)
    ensures FormatAll(p + q) == FormatAll(p) + FormatAll(q)
  {
    var ts, us := FormatAll(p + q), FormatAll(p) + FormatAll(q);
    forall i | 0 <= i < |ts|
      ensures ts[i] == us[i]
    {
      if i < |p| {
        assert (p + q)[i] == p[i];
      } else {
        assert (p + q)[i] == q[i - |p|];
      }
    }
  }

  /** A requirement of one comparator renders as that comparator. */
  lemma SingleReqText(c: Comparator)
    ensures FormatVersionReq(VersionReq([c])) == FormatComparator(c)
  {
  }
}
