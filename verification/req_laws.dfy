/** Laws of requirement matching: what `*` matches, when a pre-release can
    match at all, that a requirement is a conjunction whose order does not
    matter, how one comparator relates to a requirement, and that build
    metadata is never consulted. */
module ReqLaws {
  import opened Wrappers
  import opened Semver
  import opened Order
  import opened Eval

  /** The requirement `*` matches exactly the versions without a
      pre-release. */
  lemma StarMatchesReleases(v: Version)
    ensures MatchesReq(STAR, v) <==> v.pre == ""
  {
  }

  /** `*` is the requirement `>=0.0.0`: both match exactly the releases. */
  lemma StarIsAtLeastZero(v: Version)
    ensures MatchesReq(STAR, v) == MatchesReq(VersionReq([Comparator(GreaterEq, 0, Some(0), Some(0), "")]), v)
  {
    var c := Comparator(GreaterEq, 0, Some(0), Some(0), "");
    var cs := [c];
    assert cs[0] == c;
    if v.pre != "" {
      assert ComparePre(v.pre, "") == -1;
    }
    if MatchesReq(VersionReq(cs), v) {
      assert MatchesImpl(cs[0], v);
    }
  }

  /** A pre-release version matches only a requirement that contains a
      comparator with the same three numbers and a non-empty pre-release. */
  lemma PreReleaseNeedsPin(req: VersionReq, v: Version)
    requires v.pre != "" && MatchesReq(req, v)
    ensures exists c | c in req.comparators ::
              c.major == v.major && c.minor == Some(v.minor) && c.patch == Some(v.patch) && c.pre != ""
  {
    var i :| 0 <= i < |req.comparators| && PreIsCompatible(req.comparators[i], v);
    assert req.comparators[i] in req.comparators;
  }

  /** Matching read over the comparators as members rather than positions. */
  lemma MatchesReqMembers(req: VersionReq, v: Version)
    ensures MatchesReq(req, v)
        <==> && (forall c | c in req.comparators :: MatchesImpl(c, v))
             && (v.pre == "" || exists c | c in req.comparators :: PreIsCompatible(c, v))
  {
    var cs := req.comparators;
    if v.pre != "" && (exists c | c in cs :: PreIsCompatible(c, v)) {
      var c :| c in cs && PreIsCompatible(c, v);
      var i :| 0 <= i < |cs| && cs[i] == c;
      assert PreIsCompatible(cs[i], v);
    }
    if forall i | 0 <= i < |cs| :: MatchesImpl(cs[i], v) {
      forall c | c in cs
        ensures MatchesImpl(c, v)
      {
        var i :| 0 <= i < |cs| && cs[i] == c;
      }
    }
  }

  /** For a version without pre-release, a requirement is the conjunction of
      its comparators. */
  lemma ReleaseIsConjunction(req: VersionReq, v: Version)
    requires v.pre == ""
    ensures MatchesReq(req, v) <==> forall c | c in req.comparators :: MatchesImpl(c, v)
  {
    MatchesReqMembers(req, v);
  }

  /** The order and repetition of comparators do not matter: requirements
      with the same comparators match the same versions. */
  lemma OrderIndependent(r1: VersionReq, r2: VersionReq, v: Version)
    requires forall c :: c in r1.comparators <==> c in r2.comparators
    ensures MatchesReq(r1, v) == MatchesReq(r2, v)
  {
    MatchesReqMembers(r1, v);
    MatchesReqMembers(r2, v);
  }

  /** For a version without pre-release, joining two requirements matches
      what both match. */
  lemma ReleaseConcat(p: seq<Comparator>, q: seq<Comparator>, v: Version)
    requires v.pre == ""
    ensures MatchesReq(VersionReq(p + q), v) <==> MatchesReq(VersionReq(p), v) && MatchesReq(VersionReq(q), v)
  {
    MatchesReqMembers(VersionReq(p + q), v);
    MatchesReqMembers(VersionReq(p), v);
    MatchesReqMembers(VersionReq(q), v);
  }

  /** `matches_comparator` is `matches_req` on the requirement made of that
      comparator alone. */
  lemma ComparatorIsSingletonReq(c: Comparator, v: Version)
    ensures MatchesComparator(c, v) == MatchesReq(VersionReq([c]), v)
  {
    var cs := [c];
    assert cs[0] == c;
    if MatchesComparator(c, v) && v.pre != "" {
      assert PreIsCompatible(cs[0], v);
    }
    if MatchesReq(VersionReq(cs), v) {
      assert MatchesImpl(cs[0], v);
    }
  }

  /** Build metadata is never consulted: changing it changes no outcome. */
  lemma BuildIgnored(req: VersionReq, c: Comparator, v: Version, build: string)
    ensures MatchesReq(req, v.(build := build)) == MatchesReq(req, v)
    ensures MatchesComparator(c, v.(build := build)) == MatchesComparator(c, v)
    ensures MatchesImpl(c, v.(build := build)) == MatchesImpl(c, v)
  {
    var w := v.(build := build);
    assert forall d :: MatchesImpl(d, w) == MatchesImpl(d, v);
    assert forall d :: PreIsCompatible(d, w) == PreIsCompatible(d, v);
  }
}
