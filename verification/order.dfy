/** The ordering of pre-release and build strings of src/order.ts:
    `comparePre` and `compareBuild`. Both split their arguments on '.',
    compare the parts pairwise, and let a longer list of parts win when one
    is a prefix of the other. A part counts as numeric only when it is a
    single digit, exactly as the regular expression `/^\d$/` of the original
    decides; `localeCompare` is read as an ordinal comparison. */
module Order {
  import opened Text

  /** `localeCompare` read as ordinal, lexicographic comparison of the
      characters: -1, 0 or 1. */
  function StrCmp(a: string, b: string): (r: int)
    ensures r == -1 || r == 0 || r == 1
    ensures r == 0 <==> a == b
  {
    if |a| == 0 then (if |b| == 0 then 0 else -1)
    else if |b| == 0 then 1
    else if a[0] < b[0] then -1
    else if a[0] > b[0] then 1
    else
      var r := StrCmp(a[1..], b[1..]);
      assert r == 0 ==> a == [a[0]] + a[1..] && b == [b[0]] + b[1..];
      r
  }

  /** The test `/^\d$/`: one ASCII digit and nothing else. */
  predicate SingleDigit(s: string) {
    |s| == 1 && IsDigit(s[0])
  }

  /** Which of the two copies of the loop is meant. */
  datatype Kind = PreRelease | BuildMetadata

  /** One pass of the loop body of `comparePre` on two parts: a "numeric"
      part sorts below any other; two numeric parts are compared by length,
      then as strings. */
  function ComparePreSegment(x: string, y: string): (r: int)
    ensures r == -1 || r == 0 || r == 1
  {
    var xd := SingleDigit(x);
    var yd := SingleDigit(y);
    if xd && !yd then -1
    else if !xd && yd then 1
    else if xd && yd && |x| > |y| then 1
    else if xd && yd && |x| < |y| then -1
    else StrCmp(x, y)
  }

  /** One pass of the loop body of `compareBuild` on two parts: as for
      pre-releases, but two numeric parts are compared with their leading
      zeros removed first (length, then string), and then by their full
      length. */
  function CompareBuildSegment(x: string, y: string): (r: int)
    ensures r == -1 || r == 0 || r == 1
  {
    var xd := SingleDigit(x);
    var yd := SingleDigit(y);
    if xd && !yd then -1
    else if !xd && yd then 1
    else if xd && yd then
      var xt := StripLeadingZeros(x);
      var yt := StripLeadingZeros(y);
      if |xt| > |yt| then 1
      else if |xt| < |yt| then -1
      else if StrCmp(xt, yt) != 0 then StrCmp(xt, yt)
      else if |x| > |y| then 1
      else if |x| < |y| then -1
      else StrCmp(x, y)
    else StrCmp(x, y)
  }

  function CompareSegment(x: string, y: string, kind: Kind): (r: int)
    ensures r == -1 || r == 0 || r == 1
  {
    match kind
    case PreRelease => ComparePreSegment(x, y)
    case BuildMetadata => CompareBuildSegment(x, y)
  }

  /** The loop over the parts of `a`, from some index onwards: `ps` and `qs`
      are the parts of both strings not yet compared. A missing or empty
      part on the right makes the left side greater; when the left side runs
      out, it is smaller exactly when parts remain on the right. */
  function CompareParts(ps: seq<string>, qs: seq<string>, kind: Kind): (r: int)
    ensures r == -1 || r == 0 || r == 1
  {
    if |ps| == 0 then (if |qs| > 0 then -1 else 0)
    else if |qs| == 0 || qs[0] == "" then 1
    else
      var c := CompareSegment(ps[0], qs[0], kind);
      if c != 0 then c else CompareParts(ps[1..], qs[1..], kind)
  }

  /** The shared body of `comparePre` and `compareBuild`: the empty string
      (no pre-release, no build) sorts above every non-empty one. */
  function Compare(a: string, b: string, kind: Kind): (r: int)
    ensures r == -1 || r == 0 || r == 1
    ensures a == "" ==> (r == 0 <==> b == "")
    ensures a == "" && b != "" ==> r == 1
    ensures a != "" && b == "" ==> r == -1
  {
    if a == "" && b == "" then 0
    else if a == "" then 1
    else if b == "" then -1
    else CompareParts(Split(a), Split(b), kind)
  }

  function ComparePre(a: string, b: string): (r: int)
    ensures r == -1 || r == 0 || r == 1
  {
    Compare(a, b, PreRelease)
  }

  function CompareBuild(a: string, b: string): (r: int)
    ensures r == -1 || r == 0 || r == 1
  {
    Compare(a, b, BuildMetadata)
  }

  /** The loop of `comparePre`/`compareBuild` as written: an index runs over
      the parts of `a`; the result agrees with the recursive reading. */
  method CompareLoop(a: string, b: string, kind: Kind) returns (r: int)
    ensures r == Compare(a, b, kind)
  {
    if a == "" && b == "" {
      return 0;
    }
    if a == "" {
      return 1;
    }
    if b == "" {
      return -1;
    }
    var aParts := Split(a);
    var bParts := Split(b);
    var i := 0;
    while i < |aParts|
      invariant i <= |aParts| && i <= |bParts|
      invariant CompareParts(aParts, bParts, kind) == CompareParts(aParts[i..], bParts[i..], kind)
    {
      if i >= |bParts| || bParts[i] == "" {
        return 1;
      }
      var c := CompareSegment(aParts[i], bParts[i], kind);
      if c != 0 {
        return c;
      }
      assert aParts[i..][1..] == aParts[i + 1..];
      assert bParts[i..][1..] == bParts[i + 1..];
      i := i + 1;
    }
    if |aParts| < |bParts| {
      return -1;
    }
    return 0;
  }

  // ---------------------------------------------------------------------
  // Laws of the ordinal string comparison.
  // ---------------------------------------------------------------------

  lemma {:induction false} StrCmpAntisym(a: string, b: string)
    ensures StrCmp(a, b) == -StrCmp(b, a)
    decreases |a|
  {
    if |a| > 0 && |b| > 0 && a[0] == b[0] {
      StrCmpAntisym(a[1..], b[1..]);
    }
  }

  lemma {:induction false} StrCmpTrans(a: string, b: string, c: string)
    requires StrCmp(a, b) < 0 && StrCmp(b, c) < 0
    ensures StrCmp(a, c) < 0
    decreases |a|
  {
    if |a| > 0 && |b| > 0 && |c| > 0 && a[0] == b[0] && b[0] == c[0] {
      StrCmpTrans(a[1..], b[1..], c[1..]);
    }
  }

  // ---------------------------------------------------------------------
  // Laws of the pre-release part comparison.
  // ---------------------------------------------------------------------

  lemma SegmentZero(x: string, y: string)
    ensures ComparePreSegment(x, y) == 0 <==> x == y
  {
  }

  lemma SegmentAntisym(x: string, y: string)
    ensures ComparePreSegment(x, y) == -ComparePreSegment(y, x)
  {
    StrCmpAntisym(x, y);
  }

  lemma SegmentTrans(x: string, y: string, z: string)
    requires ComparePreSegment(x, y) < 0 && ComparePreSegment(y, z) < 0
    ensures ComparePreSegment(x, z) < 0
  {
    if SingleDigit(x) == SingleDigit(y) && SingleDigit(y) == SingleDigit(z) {
      StrCmpTrans(x, y, z);
    }
  }

  /** The single-digit quirk at part level: a one-digit part sorts below
      every part that is not a single digit, whatever their values. */
  lemma SingleDigitBelow(d: string, x: string)
    requires SingleDigit(d) && !SingleDigit(x)
    ensures ComparePreSegment(d, x) == -1 && ComparePreSegment(x, d) == 1
  {
  }

  /** Removing leading zeros from a single digit leaves it, or nothing when
      it is '0'. */
  lemma StripSingleDigit(x: string)
    requires SingleDigit(x)
    ensures StripLeadingZeros(x) == (if x[0] == '0' then "" else x)
  {
    if x[0] == '0' {
      assert x[1..] == "";
    }
  }

  /** Because only single digits are numeric, the leading-zero handling of
      `compareBuild` never changes an outcome: both part comparisons agree. */
  lemma BuildSegmentIsPre(x: string, y: string)
    ensures CompareBuildSegment(x, y) == ComparePreSegment(x, y)
  {
    if SingleDigit(x) && SingleDigit(y) {
      SingleDigitsBuild(x, y);
    }
  }

  /** Two single characters are ordered by the characters. */
  lemma StrCmpSingle(x: string, y: string)
    requires |x| == 1 && |y| == 1
    ensures StrCmp(x, y) == (if x[0] < y[0] then -1 else if x[0] > y[0] then 1 else 0)
  {
    assert |x[1..]| == 0 && |y[1..]| == 0;
  }

  /** Two single digits are ordered by `compareBuild` as by `comparePre`:
      by their characters. */
  lemma SingleDigitsBuild(x: string, y: string)
    requires SingleDigit(x) && SingleDigit(y)
    ensures CompareBuildSegment(x, y) == StrCmp(x, y)
  {
    StripSingleDigit(x);
    StripSingleDigit(y);
    StrCmpSingle(x, y);
    if x[0] == '0' && y[0] == '0' {
      assert StripLeadingZeros(x) == StripLeadingZeros(y) == "";
      assert x == y;
    } else if x[0] == '0' {
      assert |StripLeadingZeros(x)| < |StripLeadingZeros(y)|;
    } else if y[0] == '0' {
      assert |StripLeadingZeros(x)| > |StripLeadingZeros(y)|;
    } else {
      assert StripLeadingZeros(x) == x && StripLeadingZeros(y) == y;
    }
  }

  // ---------------------------------------------------------------------
  // Laws of the parts loop.
  // ---------------------------------------------------------------------

  predicate NonEmptyParts(ps: seq<string>) {
    forall k | 0 <= k < |ps| :: ps[k] != ""
  }

  lemma {:induction false} PartsBuildIsPre(ps: seq<string>, qs: seq<string>)
    ensures CompareParts(ps, qs, BuildMetadata) == CompareParts(ps, qs, PreRelease)
    decreases |ps|
  {
    if |ps| > 0 && |qs| > 0 && qs[0] != "" {
      BuildSegmentIsPre(ps[0], qs[0]);
      PartsBuildIsPre(ps[1..], qs[1..]);
    }
  }

  lemma {:induction false} PartsZero(ps: seq<string>, qs: seq<string>)
    requires NonEmptyParts(qs)
    ensures CompareParts(ps, qs, PreRelease) == 0 <==> ps == qs
    decreases |ps|
  {
    if |ps| > 0 && |qs| > 0 {
      assert qs[0] != "";
      SegmentZero(ps[0], qs[0]);
      PartsZero(ps[1..], qs[1..]);
      assert ps == [ps[0]] + ps[1..] && qs == [qs[0]] + qs[1..];
    }
  }

  lemma {:induction false} PartsAntisym(ps: seq<string>, qs: seq<string>)
    requires NonEmptyParts(ps) && NonEmptyParts(qs)
    ensures CompareParts(ps, qs, PreRelease) == -CompareParts(qs, ps, PreRelease)
    decreases |ps|
  {
    if |ps| > 0 && |qs| > 0 {
      assert ps[0] != "" && qs[0] != "";
      SegmentAntisym(ps[0], qs[0]);
      PartsAntisym(ps[1..], qs[1..]);
    } else if |ps| > 0 {
      assert ps[0] != "";
    } else if |qs| > 0 {
      assert qs[0] != "";
    }
  }

  lemma {:induction false} PartsTrans(ps: seq<string>, qs: seq<string>, rs: seq<string>)
    requires NonEmptyParts(qs) && NonEmptyParts(rs)
    requires CompareParts(ps, qs, PreRelease) < 0 && CompareParts(qs, rs, PreRelease) < 0
    ensures CompareParts(ps, rs, PreRelease) < 0
    decreases |ps|
  {
    if |ps| > 0 {
      assert qs[0] != "" && rs[0] != "";
      var x, y, z := ps[0], qs[0], rs[0];
      SegmentZero(x, y);
      SegmentZero(y, z);
      if ComparePreSegment(x, y) == 0 && ComparePreSegment(y, z) == 0 {
        PartsTrans(ps[1..], qs[1..], rs[1..]);
      } else if ComparePreSegment(x, y) == 0 {
        assert x == y;
      } else if ComparePreSegment(y, z) == 0 {
        assert y == z;
      } else {
        SegmentTrans(x, y, z);
      }
    }
  }

  /** A proper prefix of a list of parts sorts below the whole list. */
  lemma {:induction false} PartsPrefix(ps: seq<string>, rs: seq<string>)
    requires NonEmptyParts(ps + rs) && |rs| > 0
    ensures CompareParts(ps, ps + rs, PreRelease) == -1
    decreases |ps|
  {
    var qs := ps + rs;
    if |ps| > 0 {
      assert qs[0] == ps[0] && ps[0] != "";
      SegmentZero(ps[0], ps[0]);
      assert qs[1..] == ps[1..] + rs;
      assert NonEmptyParts(ps[1..] + rs) by {
        forall k | 0 <= k < |ps[1..] + rs|
          ensures (ps[1..] + rs)[k] != ""
        {
          assert (ps[1..] + rs)[k] == qs[k + 1];
        }
      }
      PartsPrefix(ps[1..], rs);
    }
  }

  // ---------------------------------------------------------------------
  // Laws at the level of strings.
  // ---------------------------------------------------------------------

  /** A pre-release or build string whose parts are all non-empty, or the
      empty string. Every identifier the parser accepts is of this form. */
  predicate WellSegmented(s: string) {
    s == "" || NonEmptyParts(Split(s))
  }

  /** `compareBuild` is `comparePre` on every pair of strings. */
  lemma BuildIsPre(a: string, b: string)
    ensures CompareBuild(a, b) == ComparePre(a, b)
  {
    if a != "" && b != "" {
      PartsBuildIsPre(Split(a), Split(b));
    }
  }

  /** Two well-segmented strings compare equal exactly when they are equal. */
  lemma PreZero(a: string, b: string)
    requires WellSegmented(a) && WellSegmented(b)
    ensures ComparePre(a, b) == 0 <==> a == b
  {
    if a != "" && b != "" {
      PartsZero(Split(a), Split(b));
      if Split(a) == Split(b) {
        JoinSplit(a);
        JoinSplit(b);
      }
    }
  }

  lemma PreReflexive(a: string)
    requires WellSegmented(a)
    ensures ComparePre(a, a) == 0
  {
    PreZero(a, a);
  }

  lemma PreAntisym(a: string, b: string)
    requires WellSegmented(a) && WellSegmented(b)
    ensures ComparePre(a, b) == -ComparePre(b, a)
  {
    if a != "" && b != "" {
      PartsAntisym(Split(a), Split(b));
    }
  }

  lemma PreTrans(a: string, b: string, c: string)
    requires WellSegmented(a) && WellSegmented(b) && WellSegmented(c)
    requires ComparePre(a, b) < 0 && ComparePre(b, c) < 0
    ensures ComparePre(a, c) < 0
  {
    if a != "" && b != "" && c != "" {
      PartsTrans(Split(a), Split(b), Split(c));
    }
  }

  /** Any two well-segmented strings are ordered one way or the other, or
      are the same string. */
  lemma PreTotal(a: string, b: string)
    requires WellSegmented(a) && WellSegmented(b)
    ensures ComparePre(a, b) < 0 || ComparePre(a, b) > 0 || a == b
    ensures ComparePre(a, b) < 0 <==> ComparePre(b, a) > 0
  {
    PreZero(a, b);
    PreAntisym(a, b);
  }

  /** A pre-release extended by further parts sorts above it. */
  lemma PrePrefix(a: string, b: string)
    requires a != "" && b != ""
    requires WellSegmented(a) && WellSegmented(b)
    ensures ComparePre(a, a + "." + b) == -1
  {
    SplitAppend(a, b);
    var ps, qs := Split(a), Split(b);
    assert NonEmptyParts(ps + qs) by {
      forall k | 0 <= k < |ps + qs|
        ensures (ps + qs)[k] != ""
      {
        if k < |ps| {
          assert (ps + qs)[k] == ps[k];
        } else {
          assert (ps + qs)[k] == qs[k - |ps|];
        }
      }
    }
    PartsPrefix(ps, qs);
  }

  /** With an empty part, a string does not compare equal to itself: the
      empty part on the right side ends the loop with 1. */
  lemma EmptyPartIrreflexive(a: string, b: string)
    requires a != "" && '.' !in a
    ensures ComparePre(a + "." + "." + b, a + "." + "." + b) == 1
  {
    var s := a + "." + "." + b;
    assert a + "." + "" == a + ".";
    Regroup(a, "", b);
    SplitCons(a, "" + "." + b);
    SplitCons("", b);
    SegmentZero(a, a);
    var ps := Split(s);
    assert ps == [a] + ([""] + Split(b));
    assert ps[0] == a && ps[1..][0] == "";
    assert CompareSegment(a, a, PreRelease) == 0;
    assert CompareParts(ps[1..], ps[1..], PreRelease) == 1;
    assert CompareParts(ps, ps, PreRelease) == 1;
  }
}
