/** The version parser of src/parse.ts: a character-level recursive-descent
    parser in which every step returns its value together with the unconsumed
    rest of the input, and every error is a `Failure` carrying the exact
    position and character the original throws with. */
module Parser {
  import opened Wrappers
  import opened Errors
  import opened Text
  import opened Semver

  /** The rest of the input after an identifier: empty, or starting with a
      character that can neither continue a segment nor separate two. */
  predicate Stops(rest: string) {
    rest == "" || (!IsIdentChar(rest[0]) && rest[0] != '.')
  }

  /** `numeric_identifier`: reads the run of ASCII digits at the front of the
      input as a decimal number. A run longer than one digit that starts with
      '0' is a leading-zero error; no digit at all is an unexpected character,
      or an unexpected end on empty input. */
  function NumericIdentifier(input: string, pos: Position): (r: Result<(nat, string), Error>)
    ensures input == "" ==> r == Failure(UnexpectedEnd(pos))
    ensures input != "" && !IsDigit(input[0]) ==> r == Failure(UnexpectedChar(pos, input[0]))
    ensures r == Failure(LeadingZero(pos))
        <==> |input| > 1 && input[0] == '0' && IsDigit(input[1])
    ensures r.Success? <==> input != "" && IsDigit(input[0]) && r != Failure(LeadingZero(pos))
    ensures r.Success? ==> NatToString(r.value.0) + r.value.1 == input
    ensures r.Success? ==> r.value.1 == "" || !IsDigit(r.value.1[0])
  {
    var len := DigitRunLen(input);
    if len > 1 && input[0] == '0' then
      Failure(LeadingZero(pos))
    else if len > 0 then
      var digits := input[..len];
      DecimalCanonical(digits);
      assert input == digits + input[len..];
      Success((DecimalValue(digits), input[len..]))
    else if input != "" then
      Failure(UnexpectedChar(pos, input[0]))
    else
      Failure(UnexpectedEnd(pos))
  }

  /** The loop of `numeric_identifier` as written: digits are accumulated
      into `value`, and a digit read while `value` is still zero after the
      first one is a leading zero. (A NUL character ends the original loop
      because its code is falsy; it is not a digit either, so the `break`
      here covers it.) */
  method NumericIdentifierLoop(input: string, pos: Position) returns (r: Result<(nat, string), Error>)
    ensures r == NumericIdentifier(input, pos)
  {
    var len := 0;
    var value := 0;
    while len < |input| && IsDigit(input[len])
      invariant len <= DigitRunLen(input)
      invariant AllDigits(input[..len]) && value == DecimalValue(input[..len])
      invariant len > 0 ==> (value == 0 <==> input[0] == '0')
      invariant len > 1 ==> input[0] != '0'
    {
      if value == 0 && len > 0 {
        return Failure(LeadingZero(pos));
      }
      assert input[..len + 1][..len] == input[..len];
      value := value * 10 + DigitValue(input[len]);
      len := len + 1;
    }
    if len > 0 {
      return Success((value, input[len..]));
    } else if input != "" {
      return Failure(UnexpectedChar(pos, input[0]));
    } else {
      return Failure(UnexpectedEnd(pos));
    }
  }

  /** `dot`: consumes the '.' that must follow a major or minor number. */
  function Dot(input: string, pos: Position): (r: Result<string, Error>)
    ensures r.Success? <==> |input| > 0 && input[0] == '.'
    ensures r.Success? ==> "." + r.value == input
    ensures input == "" ==> r == Failure(UnexpectedEnd(pos))
    ensures input != "" && input[0] != '.' ==> r == Failure(UnexpectedCharAfter(pos, input[0]))
  {
    if |input| > 0 && input[0] == '.' then
      assert input == "." + input[1..];
      Success(input[1..])
    else if input == "" then
      Failure(UnexpectedEnd(pos))
    else
      Failure(UnexpectedCharAfter(pos, input[0]))
  }

  /** The loop of `identifier`, from the start of a segment onwards; `t` is
      the input not yet examined and `atStart` says that no segment has been
      read yet (`accumulated_len == 0`). The result pairs the characters
      consumed from `t` with the rest. */
  function Segments(t: string, pos: Position, atStart: bool): (r: Result<(string, string), Error>)
    ensures r.Success? ==> r.value.0 + r.value.1 == t
    ensures r.Success? ==> Stops(r.value.1)
    ensures r.Success? && r.value.0 == "" ==> atStart && r.value.1 == t
    ensures r.Failure? ==> r.error == EmptySegment(pos) || r.error == LeadingZero(pos)
    decreases |t|
  {
    var n := IdentRunLen(t);
    var dot := n < |t| && t[n] == '.';
    if n == 0 then
      if atStart && !dot then Success(("", t)) else Failure(EmptySegment(pos))
    else if pos == Pre && n > 1 && AllDigits(t[..n]) && t[0] == '0' then
      Failure(LeadingZero(pos))
    else if dot then
      var tail :- Segments(t[n + 1..], pos, false);
      PrefixThen(t, n + 1, tail.0, tail.1);
      Success((t[..n + 1] + tail.0, tail.1))
    else
      PrefixThen(t, n, [], t[n..]);
      Success((t[..n], t[n..]))
  }

  /** `identifier`: a possibly empty sequence of dot-separated segments. It
      yields the empty identifier (and the whole input) only when the input
      does not start with a segment or a '.'. */
  function Identifier(input: string, pos: Position): (r: Result<(string, string), Error>)
    ensures r.Success? ==> r.value.0 + r.value.1 == input && Stops(r.value.1)
    ensures r.Success? && r.value.0 == "" ==> r.value.1 == input
    ensures r.Success? && r.value.0 != "" ==> ValidIdentifier(r.value.0, pos)
    ensures r.Failure? ==> r.error == EmptySegment(pos) || r.error == LeadingZero(pos)
  {
    var r := Segments(input, pos, true);
    if r.Success? && r.value.0 != "" then
      SegmentsSound(input, pos, true);
      r
    else
      r
  }

  /** One optional section of a version: `marker` followed by a non-empty
      identifier, or nothing when the text does not start with `marker`. The
      original writes this out twice, for '-' (pre-release) and '+' (build). */
  function Section(text: string, marker: char, pos: Position): (r: Result<(string, string), Error>)
    ensures r.Success? && r.value.0 == "" ==> r.value.1 == text && !(|text| > 0 && text[0] == marker)
    ensures r.Success? && r.value.0 != "" ==> [marker] + r.value.0 + r.value.1 == text && Stops(r.value.1)
    ensures r.Success? && r.value.0 != "" ==> ValidIdentifier(r.value.0, pos)
    ensures |text| > 0 && text[0] == marker ==> r.Failure? || r.value.0 != ""
    ensures !(|text| > 0 && text[0] == marker) ==> r == Success(("", text))
    ensures r.Failure? ==> r.error == EmptySegment(pos) || r.error == LeadingZero(pos)
  {
    if |text| > 0 && text[0] == marker then
      var p :- Identifier(text[1..], pos);
      if p.0 == "" then
        Failure(EmptySegment(pos))
      else
        assert text == [marker] + text[1..];
        Success(p)
    else
      Success(("", text))
  }

  /** The position reported for input left over after a version: the last
      part that was present. */
  function LeftoverPosition(pre: string, build: string): Position {
    if build != "" then Build else if pre != "" then Pre else Patch
  }

  /** The segment scan stops exactly at the end of a run of identifier
      characters. */
  lemma IdentRunLenOf(seg: string, rest: string)
    requires AllIdentChars(seg)
    requires rest == "" || !IsIdentChar(rest[0])
    ensures IdentRunLen(seg + rest) == |seg|
  {
    var t := seg + rest;
    assert forall i | 0 <= i < |seg| :: t[i] == seg[i];
    assert |rest| > 0 ==> t[|seg|] == rest[0];
  }

  /** One step of the scan: a valid last segment is returned with the rest. */
  lemma SegmentsLast(seg: string, rest: string, pos: Position, atStart: bool)
    requires SegmentOk(seg, pos) && Stops(rest)
    ensures Segments(seg + rest, pos, atStart) == Success((seg, rest))
  {
    var t := seg + rest;
    IdentRunLenOf(seg, rest);
    assert t[..|seg|] == seg && t[|seg|..] == rest;
  }

  /** One step of the scan: a valid segment followed by '.' is kept, and the
      scan goes on after the dot, no longer at the start. */
  lemma SegmentsDot(seg: string, more: string, pos: Position, atStart: bool)
    requires SegmentOk(seg, pos)
    ensures Segments(seg + "." + more, pos, atStart)
         == match Segments(more, pos, false)
            case Success(p) => Success((seg + "." + p.0, p.1))
            case Failure(e) => Failure(e)
  {
    var t := seg + "." + more;
    assert t == seg + ("." + more);
    IdentRunLenOf(seg, "." + more);
    assert t[..|seg|] == seg;
    assert t[..|seg| + 1] == seg + ".";
    assert t[|seg| + 1..] == more;
  }

  /** Everything `identifier` returns is a valid identifier: dot-separated,
      non-empty segments over `[0-9A-Za-z-]`, and no pre-release numeral
      with a leading zero. */
  lemma {:induction false} SegmentsSound(t: string, pos: Position, atStart: bool)
    requires Segments(t, pos, atStart).Success?
    requires Segments(t, pos, atStart).value.0 != ""
    ensures ValidIdentifier(Segments(t, pos, atStart).value.0, pos)
    decreases |t|
  {
    var n := IdentRunLen(t);
    var seg := t[..n];
    assert AllIdentChars(seg);
    assert !IsIdentChar('.');
    assert '.' !in seg;
    assert SegmentOk(seg, pos);
    if n < |t| && t[n] == '.' {
      var tail := Segments(t[n + 1..], pos, false);
      SegmentsSound(t[n + 1..], pos, false);
      assert t[..n + 1] == seg + ".";
      ValidIdentifierCons(seg, tail.value.0, pos);
    } else {
      ValidIdentifierSingle(seg, pos);
    }
  }

  /** `identifier` reads back every valid identifier followed by a character
      that cannot continue it. */
  lemma {:induction false} SegmentsComplete(id: string, rest: string, pos: Position, atStart: bool)
    requires ValidIdentifier(id, pos) && Stops(rest)
    ensures Segments(id + rest, pos, atStart) == Success((id, rest))
    decreases |id|
  {
    var i := DotIndex(id);
    var seg := id[..i];
    assert '.' !in seg;
    if i == |id| {
      assert seg == id;
      ValidIdentifierSingle(id, pos);
      SegmentsLast(id, rest, pos, atStart);
    } else {
      var id2 := id[i + 1..];
      DotSplit(id, i);
      ValidIdentifierCons(seg, id2, pos);
      SegmentsComplete(id2, rest, pos, false);
      Assoc3(seg + ".", id2, rest);
      SegmentsDot(seg, id2 + rest, pos, atStart);
    }
  }

  /** Both directions of the identifier grammar: `identifier` succeeds with a
      non-empty identifier `id` and rest `rest` exactly when `id` is valid and
      `rest` cannot continue it. */
  lemma IdentifierCharacterization(id: string, rest: string, pos: Position)
    requires id != ""
    ensures Identifier(id + rest, pos) == Success((id, rest))
        <==> ValidIdentifier(id, pos) && Stops(rest)
  {
    if ValidIdentifier(id, pos) && Stops(rest) {
      SegmentsComplete(id, rest, pos, true);
    }
    if Identifier(id + rest, pos) == Success((id, rest)) {
      SegmentsSound(id + rest, pos, true);
    }
  }

  /** A '.' where a segment should start is an empty segment. */
  lemma IdentifierLeadingDot(t: string, pos: Position)
    ensures Identifier("." + t, pos) == Failure(EmptySegment(pos))
  {
    assert ("." + t)[0] == '.';
    assert IdentRunLen("." + t) == 0;
  }

  /** A '.' after a valid identifier that is not followed by another segment
      (a doubled or a trailing dot) is an empty segment. */
  lemma {:induction false} SegmentsDotWithoutSegment(id: string, rest: string, pos: Position, atStart: bool)
    requires ValidIdentifier(id, pos)
    requires rest == "" || !IsIdentChar(rest[0])
    ensures Segments(id + "." + rest, pos, atStart) == Failure(EmptySegment(pos))
    decreases |id|
  {
    var i := DotIndex(id);
    var seg := id[..i];
    assert '.' !in seg;
    if i == |id| {
      assert seg == id;
      ValidIdentifierSingle(id, pos);
      SegmentsDot(id, rest, pos, atStart);
      assert IdentRunLen(rest) == 0;
    } else {
      var id2 := id[i + 1..];
      DotSplit(id, i);
      ValidIdentifierCons(seg, id2, pos);
      SegmentsDotWithoutSegment(id2, rest, pos, false);
      Regroup(seg, id2, rest);
      SegmentsDot(seg, id2 + "." + rest, pos, atStart);
    }
  }

  /** A pre-release segment that is a numeral with a leading zero is
      rejected; the same characters are accepted as build metadata. */
  lemma IdentifierLeadingZero(seg: string, rest: string)
    requires LeadingZeroSegment(seg)
    requires rest == "" || !IsIdentChar(rest[0])
    ensures Identifier(seg + rest, Pre) == Failure(LeadingZero(Pre))
    ensures Stops(rest) ==> Identifier(seg + rest, Build) == Success((seg, rest))
  {
    assert AllIdentChars(seg);
    IdentRunLenOf(seg, rest);
    assert (seg + rest)[..|seg|] == seg;
    if Stops(rest) {
      assert '.' !in seg;
      ValidIdentifierSingle(seg, Build);
      SegmentsComplete(seg, rest, Build, true);
    }
  }

  /** The first half of `parse_version`: `major.minor.patch`, each number
      followed by the '.' that `dot` demands, except the last. Yields the three
      numbers and the rest of the text. */
  function ParseNumbers(text: string): (r: Result<(nat, nat, nat, string), Error>)
  {
    var major :- NumericIdentifier(text, Major);
    var t1 :- Dot(major.1, Major);
    var minor :- NumericIdentifier(t1, Minor);
    var t2 :- Dot(minor.1, Minor);
    var patch :- NumericIdentifier(t2, Patch);
    Success((major.0, minor.0, patch.0, patch.1))
  }

  /** The second half of `parse_version`: the optional `-pre` and `+build`
      sections after the patch number, then the check that nothing is left. */
  function ParseSections(major: nat, minor: nat, patch: nat, text: string): (r: Result<Version, Error>)
  {
    if text == "" then
      Success(NewVersion(major, minor, patch))
    else
      var pre :- Section(text, '-', Pre);
      var build :- Section(pre.1, '+', Build);
      var rest := build.1;
      if rest != "" then
        Failure(UnexpectedCharAfter(LeftoverPosition(pre.0, build.0), rest[0]))
      else
        Success(Version(major, minor, patch, pre.0, build.0))
  }

  /** `parse_version` (also `Version.parse`, which only delegates to it). */
  function ParseVersion(text: string): (r: Result<Version, Error>)
  {
    var n :- ParseNumbers(text);
    ParseSections(n.0, n.1, n.2, n.3)
  }
}
