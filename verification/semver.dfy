/** The data model shared by the parser, the evaluator and the formatter:
    `Version` (src/version.ts), and `Op`, `Comparator` and `VersionReq`
    (src/version_req.ts), with the invariants the parser establishes. */
module Semver {
  import opened Wrappers
  import opened Errors
  import opened Text

  /** A version `major.minor.patch[-pre][+build]`. An absent pre-release or
      build is the empty string. Numbers are unbounded naturals. */
  datatype Version = Version(major: nat, minor: nat, patch: nat, pre: string, build: string)
  {
    /** `Version.toString`: the three numbers joined by '.', then `-pre` and
        `+build`, each only when non-empty. */
    function ToString(): string {
      NumbersText(major, minor, patch) + Tagged('-', pre) + Tagged('+', build)
    }
  }

  /** The three numbers of a version rendered in decimal and joined by '.'. */
  function NumbersText(major: nat, minor: nat, patch: nat): string {
    NatToString(major) + "." + NatToString(minor) + "." + NatToString(patch)
  }

  /** An optional section of the rendering: `marker` and `s`, or nothing when
      `s` is empty. */
  function Tagged(marker: char, s: string): string {
    if s != "" then [marker] + s else ""
  }

  /** The constructor called with three numbers: pre-release and build
      default to the empty string. */
  function NewVersion(major: nat, minor: nat, patch: nat): (v: Version)
    ensures v.major == major && v.minor == minor && v.patch == patch
    ensures v.pre == "" && v.build == ""
    ensures ValidVersion(v)
  {
    Version(major, minor, patch, "", "")
  }

  /** An all-digit segment of more than one digit that starts with '0'. */
  predicate LeadingZeroSegment(seg: string) {
    |seg| > 1 && AllDigits(seg) && seg[0] == '0'
  }

  /** One dot-separated segment: non-empty, over `[0-9A-Za-z-]`, and, in a
      pre-release, not a numeral with a leading zero. Build metadata allows
      leading zeros. */
  predicate SegmentOk(seg: string, pos: Position) {
    && |seg| > 0
    && AllIdentChars(seg)
    && !(pos == Pre && LeadingZeroSegment(seg))
  }

  /** A non-empty pre-release or build: dot-separated segments, each valid. */
  predicate ValidIdentifier(s: string, pos: Position) {
    var parts := Split(s);
    forall k | 0 <= k < |parts| :: SegmentOk(parts[k], pos)
  }

  /** The invariant of every version the parser produces. */
  predicate ValidVersion(v: Version) {
    && (v.pre == "" || ValidIdentifier(v.pre, Pre))
    && (v.build == "" || ValidIdentifier(v.build, Build))
  }

  /** The comparison operators; `Wildcard` stands for a default operator
      written with `*`, `x` or `X` in the minor or patch position. */
  datatype Op = Exact | Greater | GreaterEq | Less | LessEq | Tilde | Caret | Wildcard

  /** An operator and a partial version: `minor` and `patch` may be unset
      (the original's `null`). Comparators carry no build metadata. */
  datatype Comparator = Comparator(op: Op, major: nat, minor: Option<nat>, patch: Option<nat>, pre: string)

  /** The documented invariant of a comparator: a patch only with a minor, a
      non-empty pre-release only with a patch. */
  predicate ValidComparator(c: Comparator) {
    && (c.patch.Some? ==> c.minor.Some?)
    && (c.pre != "" ==> c.patch.Some?)
  }

  /** The constructor called with an operator and a major number: minor and
      patch default to unset and the pre-release to empty. */
  function NewComparator(op: Op, major: nat): (c: Comparator)
    ensures c.op == op && c.major == major
    ensures c.minor == None && c.patch == None && c.pre == ""
    ensures ValidComparator(c)
  {
    Comparator(op, major, None, None, "")
  }

  /** A requirement: the conjunction of its comparators, kept in order. */
  datatype VersionReq = VersionReq(comparators: seq<Comparator>)

  /** The requirement written `*`: no comparators at all. */
  const STAR: VersionReq := VersionReq([])

  /** The identifier invariant read segment by segment: a valid identifier is
      one valid segment, or one valid segment, a '.', and a valid identifier. */
  lemma ValidIdentifierCons(seg: string, rest: string, pos: Position)
    requires '.' !in seg
    ensures ValidIdentifier(seg + "." + rest, pos)
        <==> SegmentOk(seg, pos) && ValidIdentifier(rest, pos)
  {
    SplitCons(seg, rest);
    var parts := Split(seg + "." + rest);
    var tail := Split(rest);
    assert parts == [seg] + tail;
    if ValidIdentifier(seg + "." + rest, pos) {
      assert SegmentOk(parts[0], pos);
      forall k | 0 <= k < |tail|
        ensures SegmentOk(tail[k], pos)
      {
        assert tail[k] == parts[k + 1];
      }
    }
    if SegmentOk(seg, pos) && ValidIdentifier(rest, pos) {
      forall k | 0 <= k < |parts|
        ensures SegmentOk(parts[k], pos)
      {
        if k > 0 {
          assert parts[k] == tail[k - 1];
        }
      }
    }
  }

  /** A dot-free identifier is valid exactly when it is a valid segment. */
  lemma ValidIdentifierSingle(seg: string, pos: Position)
    requires '.' !in seg
    ensures ValidIdentifier(seg, pos) <==> SegmentOk(seg, pos)
  {
    SplitNoDot(seg);
    assert Split(seg)[0] == seg;
  }
}
