/** The evaluator of src/eval.ts: whether a version satisfies one comparator
    or a whole requirement. Each operator has its own matching function; a
    pre-release version additionally needs a comparator that names its exact
    numbers and carries a pre-release of its own. */
module Eval {
  import opened Wrappers
  import opened Semver
  import opened Order

  /** `matches_exact`: the major number agrees, so do the minor and patch
      numbers the comparator sets, and the pre-releases compare equal. */
  function MatchesExact(c: Comparator, v: Version): (b: bool)
    ensures b ==> v.major == c.major && ComparePre(v.pre, c.pre) == 0
  {
    if v.major != c.major then false
    else if c.minor.Some? && v.minor != c.minor.value then false
    else if c.patch.Some? && v.patch != c.patch.value then false
    else ComparePre(v.pre, c.pre) == 0
  }

  /** `matches_greater`: the first differing number decides; an unset field
      reached with all earlier ones equal does not match; with all three
      numbers equal the pre-release must compare greater. */
  function MatchesGreater(c: Comparator, v: Version): (b: bool)
    ensures b ==> v.major >= c.major
  {
    if v.major != c.major then v.major > c.major
    else if c.minor.None? then false
    else if v.minor != c.minor.value then v.minor > c.minor.value
    else if c.patch.None? then false
    else if v.patch != c.patch.value then v.patch > c.patch.value
    else ComparePre(v.pre, c.pre) > 0
  }

  /** `matches_less`: the mirror image of `matches_greater`. */
  function MatchesLess(c: Comparator, v: Version): (b: bool)
    ensures b ==> v.major <= c.major
  {
    if v.major != c.major then v.major < c.major
    else if c.minor.None? then false
    else if v.minor != c.minor.value then v.minor < c.minor.value
    else if c.patch.None? then false
    else if v.patch != c.patch.value then v.patch < c.patch.value
    else ComparePre(v.pre, c.pre) < 0
  }

  /** `matches_tilde`: same major, same minor when set; a greater patch
      matches when the patch is set and differs; otherwise the pre-release
      must not compare lower. */
  function MatchesTilde(c: Comparator, v: Version): (b: bool)
    ensures b ==> v.major == c.major
    ensures b && c.minor.Some? ==> v.minor == c.minor.value
  {
    if v.major != c.major then false
    else if c.minor.Some? && v.minor != c.minor.value then false
    else if c.patch.Some? && v.patch != c.patch.value then v.patch > c.patch.value
    else ComparePre(v.pre, c.pre) >= 0
  }

  /** `matches_caret`: same major; then whatever lies right of the first
      non-zero number of the comparator may grow. */
  function MatchesCaret(c: Comparator, v: Version): (b: bool)
    ensures b ==> v.major == c.major
  {
    if v.major != c.major then false
    else if c.minor.None? then true
    else if c.patch.None? then
      (if c.major > 0 then v.minor >= c.minor.value else v.minor == c.minor.value)
    else if c.major > 0 then
      if v.minor != c.minor.value then v.minor > c.minor.value
      else if v.patch != c.patch.value then v.patch > c.patch.value
      else ComparePre(v.pre, c.pre) >= 0
    else if c.minor.value > 0 then
      if v.minor != c.minor.value then false
      else if v.patch != c.patch.value then v.patch > c.patch.value
      else ComparePre(v.pre, c.pre) >= 0
    else if v.minor != c.minor.value || v.patch != c.patch.value then false
    else ComparePre(v.pre, c.pre) >= 0
  }

  /** `matches_impl`: dispatch on the operator; `>=` and `<=` are the
      disjunctions of `=` with `>` and `<`, and a wildcard matches as `=`. */
  function MatchesImpl(c: Comparator, v: Version): (b: bool)
    ensures b ==> v.major == c.major || c.op in {Greater, GreaterEq, Less, LessEq}
  {
    match c.op
    case Exact => MatchesExact(c, v)
    case Wildcard => MatchesExact(c, v)
    case Greater => MatchesGreater(c, v)
    case GreaterEq => MatchesExact(c, v) || MatchesGreater(c, v)
    case Less => MatchesLess(c, v)
    case LessEq => MatchesExact(c, v) || MatchesLess(c, v)
    case Tilde => MatchesTilde(c, v)
    case Caret => MatchesCaret(c, v)
  }

  /** `pre_is_compatible`: the comparator names all three numbers of the
      version (an unset field never equals a number) and has a non-empty
      pre-release. */
  function PreIsCompatible(c: Comparator, v: Version): (b: bool)
    ensures b ==> c.minor.Some? && c.patch.Some? && c.pre != ""
  {
    && c.major == v.major
    && c.minor == Some(v.minor)
    && c.patch == Some(v.patch)
    && c.pre != ""
  }

  /** `matches_comparator`: the operator matches and, for a pre-release
      version, the comparator pins it. */
  function MatchesComparator(c: Comparator, v: Version): (b: bool)
    ensures b ==> MatchesImpl(c, v)
    ensures b && v.pre != "" ==> c.pre != "" && c.patch == Some(v.patch)
  {
    MatchesImpl(c, v) && (v.pre == "" || PreIsCompatible(c, v))
  }

  /** The meaning of `matches_req`: every comparator matches, and a
      pre-release version is pinned by at least one of them. */
  predicate MatchesReq(req: VersionReq, v: Version) {
    && (forall i | 0 <= i < |req.comparators| :: MatchesImpl(req.comparators[i], v))
    && (v.pre == "" || exists i | 0 <= i < |req.comparators| :: PreIsCompatible(req.comparators[i], v))
  }

  /** `matches_req` as written: a first loop that fails on the first
      comparator that does not match, then, for a pre-release, a second loop
      that succeeds on the first comparator that pins it. */
  method MatchesReqLoop(req: VersionReq, v: Version) returns (b: bool)
    ensures b == MatchesReq(req, v)
  {
    var cs := req.comparators;
    var i := 0;
    while i < |cs|
      invariant i <= |cs|
      invariant forall k | 0 <= k < i :: MatchesImpl(cs[k], v)
    {
      if !MatchesImpl(cs[i], v) {
        return false;
      }
      i := i + 1;
    }
    if v.pre == "" {
      return true;
    }
    var j := 0;
    while j < |cs|
      invariant j <= |cs|
      invariant forall k | 0 <= k < j :: !PreIsCompatible(cs[k], v)
    {
      if PreIsCompatible(cs[j], v) {
        return true;
      }
      j := j + 1;
    }
    return false;
  }
}
