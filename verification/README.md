# semver-cargo in Dafny

A Dafny model of the core of semver-cargo. semver-cargo is a TypeScript port of Cargo's
semantic-versioning library. The model covers:

- the version parser (`parse_version` and its helpers);
- the requirement evaluator (`matches_req`, `matches_comparator` and one
  function per operator);
- the ordering of pre-release and build strings (`comparePre`, `compareBuild`);
- the data model (`Version`, `Comparator`, `Op`, `VersionReq`);
- the error kinds with their message texts;
- the formatter (`format_version`, `format_comparator`, `format_version_req`).

Every thrown error is a `Failure` value that carries the position and
character the original throws with. Numbers are unbounded naturals. A string
is a sequence of characters.

The modules follow the source files:

| module | models |
|---|---|
| `Wrappers` | `Option` and `Result` (the error channel) |
| `Text` | character classes, `split('.')`, decimal rendering of numbers |
| `Errors` | `src/error.ts` |
| `Semver` | `src/version.ts`, `src/version_req.ts` (data, constructors, invariants) |
| `Parser` | `src/parse.ts` (`parse_version`, `numeric_identifier`, `dot`, `identifier`) |
| `RoundTrip` | parsing and `Version.toString` as inverses |
| `ParseErrors`, `ParseExamples` | which error each malformed input gets; the parser on the test inputs |
| `Order`, `OrderExamples` | `src/order.ts` |
| `Eval` | `src/eval.ts` |
| `ReqLaws`, `OpLaws` | requirement and operator laws from the documentation of `VersionReq` and `Op` |
| `Display` | `src/display.ts` |

**Pre-release ordering.** `comparePre` treats a part as numeric only when it
is a single digit: it uses the regular expression `/^\d$/`. The model keeps
this behaviour. Two consequences follow:

- Multi-digit parts compare as strings, so `pre.100` sorts below `pre.12`
  (`OrderExamples.MultiDigitPartsAreStrings`). The documentation of `Version`
  in src/version.ts:43-44 describes numeric comparison instead.
- The leading-zero handling of `compareBuild` never changes a result, so
  `compareBuild` equals `comparePre` on all inputs (`Order.BuildIsPre`).

`localeCompare` is modelled as an ordinal comparison that returns -1, 0 or 1.

## Model

| member | source | states |
|---|---|---|
| Errors.PositionTextInjective | src/error.ts:15-21 | the five positions are named by five distinct texts |
| Errors.Quoted | src/error.ts:122-124 | a quoted character is character between single quotes, three characters long for every character but NUL, which is escaped to four |
| Errors.QuotedInjective | src/error.ts:122-124 | the quoted form determines the character |
| Errors.Message | src/error.ts:23-120 | a position-only message is its lead words followed by the position's text; an unexpected-character message is "unexpected character ", the quoted character, " while parsing " or " after ", and the position's text; the comma error's message ends with the quoted character |
| Errors.MessageDeterminesError | src/error.ts:23-93 | for the position-only kinds (unexpected end, leading zero, empty segment), equal messages mean equal errors, kind and position alike |
| Errors.CharMessageDeterminesError | src/error.ts:34-58 | for the two unexpected-character kinds, equal messages mean equal errors: kind, character (NUL included) and position alike |
| Text.JoinSplit | src/order.ts:6-7 | splitting on '.' loses nothing: joining the parts with '.' gives the string back |
| Text.SplitAppend | src/order.ts:6-7 | the parts of `a.b` are the parts of `a` followed by those of `b` |
| Text.SplitJoin | src/order.ts:6-7 | splitting a join of dot-free parts gives the parts back |
| Text.NatToStringInjective | src/display.ts:5 | distinct numbers render as distinct texts |
| Text.StripLeadingZeros | src/order.ts:66-67 | stripping removes only leading '0' characters, keeps the rest of the string, and leaves no leading '0' |
| Text.NatToString | src/display.ts:5 | a number renders as a non-empty digit string without a redundant leading zero whose decimal value is the number |
| Text.DecimalCanonical | src/parse.ts:143-152 | a digit string without a redundant leading zero is the rendering of the value the digit loop accumulates from it |
| Semver.NewVersion | src/version.ts:61-73 | the constructor with three numbers leaves pre-release and build empty and gives a valid version |
| Semver.NewComparator | src/version_req.ts:99-111 | the constructor with an operator and a major number leaves minor and patch unset and the pre-release empty, and keeps the comparator invariant |
| Semver.ValidIdentifierCons | src/parse.ts:186-229 | a valid identifier is a valid segment, or a valid segment, a '.', and a valid identifier |
| Parser.NumericIdentifier | src/parse.ts:135-161 | empty input is an unexpected end; a non-digit first character is an unexpected character; a leading-zero error happens exactly for a digit run of two or more starting with '0'; on success the rendered number followed by the rest is the input, and the rest does not start with a digit |
| Parser.NumericIdentifierLoop | src/parse.ts:139-160 | the digit loop, with the leading-zero check made on each further digit, returns the same result as the maximal-run reading |
| Parser.Dot | src/parse.ts:175-184 | succeeds exactly on a leading '.' and consumes only it; empty input is an unexpected end; any other character is an unexpected character after the position |
| Parser.Segments | src/parse.ts:186-229 | the identifier loop consumes a prefix of its input and stops at a character that can neither continue a segment nor separate two; it fails only with an empty segment or a leading zero |
| Parser.SegmentsSound | src/parse.ts:186-229 | everything the identifier loop returns is a valid identifier |
| Parser.SegmentsComplete | src/parse.ts:186-229 | the identifier loop reads back every valid identifier followed by a stopping character |
| Parser.IdentifierCharacterization | src/parse.ts:186-229 | `identifier` returns a non-empty `id` and `rest` exactly when `id` is valid and `rest` stops it |
| Parser.Identifier | src/parse.ts:186-229 | on success the identifier and the rest make up the input, the rest stops the identifier, and a non-empty identifier is valid; an empty identifier leaves the input untouched; failures are only an empty segment or a leading zero at the given position |
| Parser.IdentifierLeadingDot | src/parse.ts:204-209 | a '.' where a segment should start is an empty segment |
| Parser.SegmentsDotWithoutSegment | src/parse.ts:204-209 | a '.' after a valid identifier that no segment follows (a doubled or trailing dot) is an empty segment |
| Parser.IdentifierLeadingZero | src/parse.ts:211-218 | a pre-release numeral with a leading zero is rejected; the same characters are accepted as build metadata |
| Parser.Section | src/parse.ts:26-40 | a section is absent, and the text untouched, when the text does not start with its marker; otherwise it is the marker, a valid non-empty identifier and a stopping rest, or an empty-segment or leading-zero error at the section's position |
| RoundTrip.NumericIdentifierCanonical | src/parse.ts:135-161 | `numeric_identifier` reads back any rendered number followed by a non-digit |
| RoundTrip.ParseThenFormat | src/parse.ts:11-56 | every accepted string is the `toString` rendering of the version it parses to, and that version satisfies the identifier invariant |
| RoundTrip.DigitRunUnique | src/parse.ts:139-152 | a digit string followed by a non-digit splits only one way |
| RoundTrip.NumbersThenFormat | src/parse.ts:14-20 | the three numbers read, rendered and followed by the unread rest, give the input back |
| RoundTrip.SectionsThenFormat | src/parse.ts:26-53 | the sections accepted after the numbers are exactly `-pre` when the pre-release is non-empty followed by `+build` when the build is non-empty |
| RoundTrip.FormatThenNumbers | src/parse.ts:14-20 | three rendered numbers followed by a non-digit are read back with that rest |
| RoundTrip.SectionRead | src/parse.ts:26-40 | a marker, a valid non-empty identifier and a stopping rest are read back as that identifier and rest |
| RoundTrip.FormatThenSections | src/parse.ts:26-53 | the rendered pre-release and build sections of a valid version are read back into that version |
| RoundTrip.FormatThenParse | src/version.ts:104-113 | every valid version parses back from its `toString` rendering |
| RoundTrip.ParseInjective | src/parse.ts:11-56 | distinct accepted strings parse to distinct versions: version equality includes pre-release and build |
| RoundTrip.ParseAfterNumbers | src/parse.ts:14-20 | after three rendered numbers, the result depends only on the sections that follow |
| ParseErrors.ParseEmpty | src/parse.ts:14 | the empty string is an unexpected end in the major number |
| ParseErrors.ParseMajorOnly | src/parse.ts:15 | a lone number is an unexpected end in the major number |
| ParseErrors.ParseMajorMinor | src/parse.ts:18 | two numbers are an unexpected end in the minor number |
| ParseErrors.ParseMinorNotDigit | src/parse.ts:17 | a non-digit where the minor number should start is an unexpected character in the minor number |
| ParseErrors.ParseMajorNoDot | src/parse.ts:15 | a number followed by a character other than a digit or '.' is an unexpected character after the major number |
| ParseErrors.ParseMajorLeadingZero | src/parse.ts:147-149 | a major number of two or more digits that starts with '0' is a leading zero |
| ParseErrors.ParseEmptySection | src/parse.ts:26-40 | a '-' or '+' that no segment follows is an empty segment in the pre-release or the build |
| ParseErrors.SectionEmpty | src/parse.ts:28-31 | a section marker that no segment follows is an empty segment |
| ParseErrors.ParsePreDanglingDot | src/parse.ts:204-209 | a pre-release ending in a '.' that no segment follows is an empty segment |
| ParseErrors.ParsePreLeadingZero | src/parse.ts:211-218 | a pre-release starting with a zero-led numeral is a leading zero in the pre-release |
| ParseErrors.ParseBuildLeadingZero | src/parse.ts:211-218 | the same numeral as build metadata is accepted |
| ParseErrors.ParseTrailingInput | src/parse.ts:42-53 | text left after a valid version, starting with a character that cannot continue its last part, is an unexpected character after the build if present, else after the pre-release if present, else after the patch; after a bare `M.m.p` this covers any character but a digit, '-' or '+' (so `1.2.3a` and `1.2.3.4`) |
| ParseErrors.ParseFourthNumber | src/parse.ts:42-53 | a '.' after a bare `M.m.p` is an unexpected character after the patch number |
| ParseExamples.ExampleOnlyMajor | tests/test_version.ts:13-15 | "1" fails with an unexpected end in the major number |
| ParseExamples.ExampleNoPatch | tests/test_version.ts:17-19 | "1.2" fails with an unexpected end in the minor number |
| ParseExamples.ExampleEmptyPre | tests/test_version.ts:21-23 | "1.2.3-" fails with an empty pre-release segment |
| ParseExamples.ExampleLetters | tests/test_version.ts:9-27 | "a.b.c" and "  " fail with an unexpected character in the major number |
| ParseExamples.ExampleTrailing | tests/test_version.ts:29-31 | "1.2.3 abc" fails with an unexpected ' ' after the patch number |
| ParseExamples.ExamplePreLeadingZero | tests/test_version.ts:33-35 | "1.2.3-01" fails with a leading zero in the pre-release |
| ParseExamples.ExampleBuildLeadingZero | tests/test_version.ts:67-69 | "0.4.0-beta.1+0851523" parses, with a zero-led build |
| ParseExamples.ExampleHyphenated | tests/test_version.ts:72-74 | "1.1.0-beta-10" parses with the pre-release "beta-10" |
| Order.StrCmp | src/order.ts:31 | the ordinal comparison returns -1, 0 or 1, and 0 exactly for equal strings |
| Order.StrCmpAntisym | src/order.ts:31 | swapping the arguments negates the comparison |
| Order.StrCmpTrans | src/order.ts:31 | the ordinal comparison is transitive |
| Order.SegmentZero | src/order.ts:18-32 | two parts compare equal exactly when they are equal |
| Order.SegmentTrans | src/order.ts:18-32 | the comparison of parts is transitive |
| Order.SegmentAntisym | src/order.ts:18-32 | swapping two parts negates their comparison |
| Order.SingleDigitsBuild | src/order.ts:65-84 | on two single digits, the build comparison after stripping leading zeros is the ordinal comparison |
| Order.PartsZero | src/order.ts:9-39 | two lists of parts, the second without empty parts, compare equal exactly when they are equal |
| Order.PartsAntisym | src/order.ts:9-39 | on lists without empty parts, swapping the lists negates the result |
| Order.PartsTrans | src/order.ts:9-39 | the comparison of part lists is transitive when the middle and last lists have no empty part |
| Order.PartsBuildIsPre | src/order.ts:50-91 | the part-list loops of `compareBuild` and `comparePre` return the same result |
| Order.SingleDigitBelow | src/order.ts:18-22 | a single-digit part sorts below any part that is not a single digit |
| Order.Compare | src/order.ts:2-4 | two empty strings are equal; an empty string sorts above any non-empty one |
| Order.CompareLoop | src/order.ts:1-40 | the index loop over the parts returns what the recursive reading of the parts returns |
| Order.BuildSegmentIsPre | src/order.ts:59-84 | on two parts, the build comparison with its leading-zero stripping agrees with the pre-release comparison |
| Order.BuildIsPre | src/order.ts:42-92 | `compareBuild` equals `comparePre` on all inputs |
| Order.PartsPrefix | src/order.ts:35-36 | a list of parts sorts below any longer list that extends it, when neither has an empty part |
| Order.PreZero | src/order.ts:1-40 | on strings without empty parts, `comparePre` is 0 exactly for equal strings |
| Order.PreReflexive | src/order.ts:1-40 | a string without empty parts compares equal to itself |
| Order.PreAntisym | src/order.ts:1-40 | on strings without empty parts, swapping the arguments negates the result |
| Order.PreTrans | src/order.ts:1-40 | on strings without empty parts, `comparePre` is transitive |
| Order.PreTotal | src/order.ts:1-40 | on strings without empty parts, two strings are equal or one sorts below the other |
| Order.PrePrefix | src/order.ts:35-36 | `a` sorts below `a.b`, for non-empty `a` and `b` without empty parts |
| Order.EmptyPartIrreflexive | src/order.ts:16 | a string with an empty part sorts above itself: the `!bPart` test fires on the empty part |
| OrderExamples.AlphaBelowAlpha1 | src/version.ts:52 | `alpha` < `alpha.1` |
| OrderExamples.Alpha1BelowAlphaBeta | src/version.ts:52 | `alpha.1` < `alpha.beta` |
| OrderExamples.AlphaBetaBelowBeta | src/version.ts:52 | `alpha.beta` < `beta` |
| OrderExamples.BetaBelowBeta2 | src/version.ts:52 | `beta` < `beta.2` |
| OrderExamples.Beta2BelowBeta11 | src/version.ts:52 | `beta.2` < `beta.11` |
| OrderExamples.Beta11BelowRc1 | src/version.ts:52 | `beta.11` < `rc.1` |
| OrderExamples.Rc1BelowRelease | src/version.ts:35-37 | a pre-release sorts below the release |
| OrderExamples.Pre12BelowPre8 | src/version.ts:46-47 | `pre12` < `pre8`: parts with letters compare in ASCII order |
| OrderExamples.Pre1BelowPreX | src/version.ts:49-50 | `pre.1` < `pre.x`: a numeric part sorts below a non-numeric one |
| OrderExamples.MultiDigitPartsAreStrings | src/order.ts:18-19 | `pre.100` < `pre.12` for both comparisons: multi-digit parts are not numeric |
| Eval.MatchesExact | src/eval.ts:52-70 | an exact match has the same major and a pre-release that compares equal |
| Eval.MatchesGreater | src/eval.ts:72-88 | a greater match never has a smaller major |
| Eval.MatchesLess | src/eval.ts:90-106 | a less match never has a larger major |
| Eval.MatchesTilde | src/eval.ts:108-121 | a tilde match keeps the major, and the minor when it is set |
| Eval.MatchesCaret | src/eval.ts:123-155 | a caret match keeps the major |
| Eval.MatchesImpl | src/eval.ts:34-50 | only the four ordering operators can match a different major |
| Eval.PreIsCompatible | src/eval.ts:157-164 | a pinning comparator sets minor and patch and has a non-empty pre-release |
| Eval.MatchesComparator | src/eval.ts:28-32 | a comparator match is an operator match, and a pre-release version matches only a comparator with its patch and a non-empty pre-release |
| Eval.MatchesReqLoop | src/eval.ts:5-26 | the two early-exit loops decide exactly that every comparator matches and that a pre-release is pinned by some comparator |
| ReqLaws.StarMatchesReleases | src/version_req.ts:34-43 | `*` matches exactly the versions without a pre-release |
| ReqLaws.StarIsAtLeastZero | src/version_req.ts:32 | `*` matches what `>=0.0.0` matches |
| ReqLaws.PreReleaseNeedsPin | src/eval.ts:16-23 | a pre-release matches only a requirement with a comparator of the same three numbers and a non-empty pre-release |
| ReqLaws.MatchesReqMembers | src/eval.ts:5-26 | matching depends only on which comparators occur in the requirement |
| ReqLaws.ReleaseIsConjunction | src/eval.ts:6-14 | for a release, a requirement matches exactly when every comparator matches |
| ReqLaws.OrderIndependent | src/eval.ts:5-26 | requirements with the same comparators, in any order and repetition, match the same versions |
| ReqLaws.ReleaseConcat | src/eval.ts:6-14 | for a release, a joined requirement matches exactly when both parts match |
| ReqLaws.ComparatorIsSingletonReq | src/eval.ts:28-32 | `matches_comparator` is `matches_req` on the requirement of that comparator alone |
| ReqLaws.BuildIgnored | src/version_req.ts:17-19 | changing the build metadata of a version changes neither `matches_impl`, `matches_comparator` nor `matches_req` |
| OpLaws.FullComparatorTrichotomy | src/version_req.ts:129-147 | against a comparator with all three numbers, `=`, `>` and `<` match when the version is equal to, above, or below the comparator's version |
| OpLaws.ExactGreaterLessExclusive | src/eval.ts:52-106 | no version matches two of `=`, `>` and `<` of the same comparator |
| OpLaws.OrEqualIsDisjunction | src/eval.ts:39-44 | `>=` is `=` or `>`; `<=` is `=` or `<` |
| OpLaws.WildcardIsExact | src/version_req.ts:169-171 | a wildcard matches as `=` with the same fields |
| OpLaws.TildeCaretKeepMajor | src/version_req.ts:154-167 | `~` and `^` never match another major; `~` with a minor never matches another minor |
| OpLaws.AgainstRelease | src/order.ts:2-4 | against the empty pre-release, "not below" and "equal" both mean "also empty" |
| OpLaws.ExactPartialIsRange | src/version_req.ts:131-132 | `=I.J` is `>=I.J.0, <I.(J+1).0`; `=I` is `>=I.0.0, <(I+1).0.0` |
| OpLaws.GreaterPartial | src/version_req.ts:136-137 | `>I.J` is `>=I.(J+1).0`; `>I` is `>=(I+1).0.0` |
| OpLaws.GreaterEqPartial | src/version_req.ts:141-142 | `>=I.J` is `>=I.J.0`; `>=I` is `>=I.0.0` |
| OpLaws.LessPartial | src/version_req.ts:146-147 | `<I.J` is `<I.J.0`; `<I` is `<I.0.0` |
| OpLaws.LessEqPartial | src/version_req.ts:151-152 | `<=I.J` is `<I.(J+1).0`; `<=I` is `<(I+1).0.0` |
| OpLaws.TildeFullIsRange | src/version_req.ts:156 | `~I.J.K-P` is `>=I.J.K-P, <I.(J+1).0` |
| OpLaws.TildePartialIsExact | src/version_req.ts:157-158 | `~I.J` is `=I.J` and `~I` is `=I`, operator against operator |
| OpLaws.CaretFullMajor | src/version_req.ts:162 | `^I.J.K` with I > 0 matches the same major at or above I.J.K |
| OpLaws.CaretFullMajorIsRange | src/version_req.ts:162 | `^I.J.K-P` with I > 0 is `>=I.J.K-P, <(I+1).0.0` |
| OpLaws.CaretFullMinor | src/version_req.ts:163 | `^0.J.K` with J > 0 matches major 0 and minor J at or above 0.J.K |
| OpLaws.CaretFullMinorIsRange | src/version_req.ts:163 | `^0.J.K-P` with J > 0 is `>=0.J.K-P, <0.(J+1).0` |
| OpLaws.CaretFullZero | src/version_req.ts:164 | `^0.0.K` matches only the numbers 0.0.K, with a pre-release not below the comparator's |
| OpLaws.CaretZeroIsExact | src/version_req.ts:164 | `^0.0.K` is `=0.0.K` when the comparator has no pre-release |
| OpLaws.CaretZeroWithPreIsNotExact | src/version_req.ts:164 | with a pre-release the two differ: `^0.0.1-alpha` matches 0.0.1-beta and `=0.0.1-alpha` does not |
| OpLaws.CaretMinorIsPatchZero | src/version_req.ts:165 | `^I.J` with I > 0 or J > 0 is `^I.J.0` |
| OpLaws.CaretPartialIsExact | src/version_req.ts:166-167 | `^0.0` is `=0.0` and `^I` is `=I` |
| OpLaws.SingleMatches | src/eval.ts:5-26 | a requirement of one comparator matches when the comparator matches and pins any pre-release |
| OpLaws.RangeMatches | src/eval.ts:5-26 | a two-comparator range matches when both bounds match and the lower bound pins any pre-release |
| Display.FormatVersion | src/display.ts:4-13 | `format_version` renders exactly what `Version.toString` renders |
| Display.FormatVersionRoundTrip | src/display.ts:4-13 | every valid version parses back from its formatted text |
| Display.OpSymbol | src/display.ts:21-36 | the operator symbols have at most two characters over `=<>~^`; only the wildcard has none |
| Display.OpSymbolInjective | src/display.ts:21-36 | distinct operators print distinct symbols |
| Display.FormatComparator | src/display.ts:20-54 | a rendered comparator starts with its operator symbol, followed by a digit |
| Display.ComparatorTextMarkers | src/display.ts:38-51 | for a pre-release that holds none of '-', '*' and '+': '-' is printed exactly when minor and patch are set and the pre-release is non-empty; '*' exactly for a wildcard with an unset minor or patch; '+' never |
| Display.FullComparatorText | src/display.ts:38-45 | a comparator with all three numbers prints its symbol followed by the rendering of its version without build |
| Display.WildcardText | src/display.ts:46-51 | a wildcard prints as `M.*` or `M.m.*` |
| Display.FormatVersionReq | src/display.ts:15-18 | a requirement renders as "*" exactly when it has no comparators |
| Display.JoinCommaAppend | src/display.ts:17 | joining two non-empty lists with ", " is joining their joins |
| Display.ReqTextConcat | src/display.ts:15-18 | a requirement of two non-empty parts renders as their renderings joined with ", " |
| Display.SingleReqText | src/display.ts:15-18 | a requirement of one comparator renders as that comparator |
| Display.StarText | src/version_req.ts:43 | `STAR` renders as "*" |

## Left out

- Comparator and requirement parsing (`parse_comparator`, `parse_version_req`,
  `Comparator.parse`, `VersionReq.parse`): src/parse.ts contains them only as
  commented-out Rust, so there is no TypeScript behaviour to model. Error
  kinds that only requirement parsing raises exist in `Errors` with their
  messages but no operation produces them.
- The overflow and illegal-character errors: they appear only in a comment of
  src/error.ts and no code throws them. Numbers are unbounded naturals, so a
  number beyond 2^53 is not rounded as a JavaScript number would be.
- `localeCompare` collation: it is modelled as ordinal character comparison.
  Locale-dependent orders are out of scope.
- Strings are sequences of Dafny characters, not UTF-16 code units.
  Surrogate pairs are not modelled.
- Ordering operators on whole versions: the TypeScript source defines none,
  and its ordering tests are commented out.
- src/lib.ts (re-exports) and the test utilities under tests/util: they are
  plumbing and hold no behaviour.
- The test input `1.2.3-1.alpha1.9+build5.7.3aedf` and the other successful
  parses in tests/test_version.ts:37-65 have no example lemma of their own.
  `RoundTrip.FormatThenParse` covers them once their identifiers are shown
  valid. Two such parses are worked through (`ExampleBuildLeadingZero`,
  `ExampleHyphenated`).
- Order.PreZero: it and the other order laws (`PreReflexive`, `PreAntisym`,
  `PreTrans`, `PreTotal`) require strings without empty parts. With an empty
  part `comparePre` is not reflexive (`Order.EmptyPartIrreflexive`). The parser
  never produces such strings.
- OrderExamples.Beta2BelowBeta11: it holds only because "2" is a single digit
  and "11" is not. Numeric comparison of multi-digit parts, which the
  documentation describes, is not what the code does, so `pre.8` < `pre.12`
  is not stated as a law.
