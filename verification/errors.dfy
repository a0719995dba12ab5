/** The error taxonomy of src/error.ts: which field was being parsed
    (`Position`), the error kinds with their payloads, and the exact text of
    each error message. */
module Errors {

  /** The field being parsed when an error occurred. */
  datatype Position = Major | Minor | Patch | Pre | Build

  /** The text an error message uses to name a position. */
  function PositionText(pos: Position): (t: string)
    ensures |t| > 0
  {
    match pos
    case Major => "major version number"
    case Minor => "minor version number"
    case Patch => "patch version number"
    case Pre => "pre-release identifier"
    case Build => "build metadata"
  }

  /** Every error kind the TypeScript code defines as a class. The kinds that
      appear only in a comment of the original (overflow, illegal character)
      are not part of the model. */
  datatype Error =
    | UnexpectedEnd(pos: Position)
    | UnexpectedChar(pos: Position, ch: char)
    | UnexpectedCharAfter(pos: Position, ch: char)
    | ExpectedCommaFound(pos: Position, ch: char)
    | LeadingZero(pos: Position)
    | EmptySegment(pos: Position)
    | WildcardNotTheOnlyComparator(ch: char)
    | UnexpectedAfterWildcard
    | ExcessiveComparators

  /** A character between single quotes; NUL is written as the escape `\0`. */
  function Quoted(c: char): (q: string)
    ensures |q| == 3 || |q| == 4
    ensures q[0] == '\'' && q[|q| - 1] == '\''
    ensures |q| == 3 <==> c != '\0'
  {
    if c == '\0' then "'\\0'" else "'" + [c] + "'"
  }

  /** An error kind that carries only a position. */
  predicate PositionOnly(e: Error) {
    e.UnexpectedEnd? || e.LeadingZero? || e.EmptySegment?
  }

  /** The part of a message written before the position it names, for the
      kinds that carry only a position. */
  function MessageLead(e: Error): (t: string)
    requires PositionOnly(e)
    ensures |t| > 0 && t[|t| - 1] == ' '
  {
    match e
    case UnexpectedEnd(_) => "unexpected end of input while parsing "
    case LeadingZero(_) => "invalid leading zero in "
    case EmptySegment(_) => "empty identifier segment in "
  }

  /** The words between the quoted character and the position, for the two
      kinds that carry a position and a character. */
  function CharWords(e: Error): (t: string)
    requires e.UnexpectedChar? || e.UnexpectedCharAfter?
    ensures |t| > 1 && t[0] == ' '
    ensures t[1] == (if e.UnexpectedChar? then 'w' else 'a')
  {
    if e.UnexpectedChar? then " while parsing " else " after "
  }

  /** `t` is a suffix of `s`. */
  predicate EndsWith(s: string, t: string) {
    |t| <= |s| && s[|s| - |t|..] == t
  }

  lemma EndsWithConcat(s: string, t: string)
    ensures EndsWith(s + t, t)
  {
    assert (s + t)[|s|..] == t;
  }

  /** The `message` each error class builds in its constructor. A message
      naming a position ends with that position's text, except for the
      comma error, which ends with the quoted character. */
  function Message(e: Error): (m: string)
    ensures PositionOnly(e) ==> m == MessageLead(e) + PositionText(e.pos)
    ensures e.UnexpectedChar? || e.UnexpectedCharAfter?
        ==> m == "unexpected character " + (Quoted(e.ch) + (CharWords(e) + PositionText(e.pos)))
    ensures e.UnexpectedChar? || e.UnexpectedCharAfter? ==> EndsWith(m, PositionText(e.pos))
    ensures e.ExpectedCommaFound? ==> EndsWith(m, Quoted(e.ch))
  {
    match e
    case UnexpectedEnd(pos) =>
      "unexpected end of input while parsing " + PositionText(pos)
    case UnexpectedChar(pos, ch) =>
      CharMessage(ch, " while parsing ", pos)
    case UnexpectedCharAfter(pos, ch) =>
      CharMessage(ch, " after ", pos)
    case ExpectedCommaFound(pos, ch) =>
      var lead := "expected comma after " + PositionText(pos) + ", found ";
      EndsWithConcat(lead, Quoted(ch));
      lead + Quoted(ch)
    case LeadingZero(pos) =>
      "invalid leading zero in " + PositionText(pos)
    case EmptySegment(pos) =>
      "empty identifier segment in " + PositionText(pos)
    case WildcardNotTheOnlyComparator(ch) =>
      "wildcard req (" + [ch] + ") must be the only comparator in the version req"
    case UnexpectedAfterWildcard =>
      "unexpected character after wildcard in version req"
    case ExcessiveComparators =>
      "excessive number of version comparators"
  }

  /** The message of the two kinds that carry a position and a character:
      the quoted character, then `words`, then the position. */
  function CharMessage(ch: char, words: string, pos: Position): (m: string)
    ensures m == "unexpected character " + (Quoted(ch) + (words + PositionText(pos)))
    ensures EndsWith(m, PositionText(pos))
  {
    var lead := "unexpected character " + Quoted(ch) + words;
    EndsWithConcat(lead, PositionText(pos));
    assert lead + PositionText(pos) == "unexpected character " + (Quoted(ch) + (words + PositionText(pos)));
    lead + PositionText(pos)
  }

  /** For the kinds that carry only a position, the message tells both the
      kind and the position: equal messages mean equal errors. */
  lemma MessageDeterminesError(e: Error, f: Error)
    requires PositionOnly(e) && PositionOnly(f)
    requires Message(e) == Message(f)
    ensures e == f
  {
    var le, lf := MessageLead(e), MessageLead(f);
    var m := Message(e);
    assert m[0] == le[0] && m[0] == lf[0];
    assert m[1] == le[1] && m[1] == lf[1];
    assert le == lf;
    assert PositionText(e.pos) == m[|le|..] == PositionText(f.pos);
    PositionTextInjective(e.pos, f.pos);
  }

  /** For the two kinds that carry a position and a character, the message
      tells the kind, the character and the position: equal messages mean
      equal errors. */
  lemma CharMessageDeterminesError(e: Error, f: Error)
    requires e.UnexpectedChar? || e.UnexpectedCharAfter?
    requires f.UnexpectedChar? || f.UnexpectedCharAfter?
    requires Message(e) == Message(f)
    ensures e == f
  {
    assert Message(e) == CharMessage(e.ch, CharWords(e), e.pos);
    assert Message(f) == CharMessage(f.ch, CharWords(f), f.pos);
    assert CharWords(e)[1] == CharWords(f)[1] ==> e.UnexpectedChar? == f.UnexpectedChar?;
    CharMessageInjective(e.ch, f.ch, CharWords(e), CharWords(f), e.pos, f.pos);
  }

  /** The text of a character message determines its character, its words
      and its position, as long as the words start with a space and differ
      in their second character. */
  lemma CharMessageInjective(c: char, d: char, u: string, w: string, p: Position, q: Position)
    requires |u| > 1 && u[0] == ' ' && |w| > 1 && w[0] == ' '
    requires u[1] == w[1] ==> u == w
    requires CharMessage(c, u, p) == CharMessage(d, w, q)
    ensures c == d && u == w && p == q
  {
    var start := "unexpected character ";
    var tu, tw := u + PositionText(p), w + PositionText(q);
    CancelPrefix(start, Quoted(c) + tu, Quoted(d) + tw);
    QuotedPrefix(c, d, tu, tw);
    assert tu[1] == tw[1];
    CancelPrefix(u, PositionText(p), PositionText(q));
    PositionTextInjective(p, q);
  }

  lemma CancelPrefix(a: string, x: string, y: string)
    requires a + x == a + y
    ensures x == y
  {
    assert x == (a + x)[|a|..];
    assert y == (a + y)[|a|..];
  }

  /** A quoted character followed by text starting with a space can be read
      back unambiguously: the third character is the closing quote or the
      `0` of the NUL escape. */
  lemma QuotedPrefix(c: char, d: char, s: string, t: string)
    requires |s| > 0 && s[0] == ' ' && |t| > 0 && t[0] == ' '
    requires Quoted(c) + s == Quoted(d) + t
    ensures c == d && s == t
  {
    var qc, qd := Quoted(c), Quoted(d);
    assert (qc + s)[2] == qc[2] && (qd + t)[2] == qd[2];
    assert |qc| == |qd|;
    assert qc == (qc + s)[..|qc|] && qd == (qd + t)[..|qd|];
    QuotedInjective(c, d);
    CancelPrefix(qc, s, t);
  }

  /** The five positions are named by five distinct texts. */
  lemma PositionTextInjective(p: Position, q: Position)
    requires PositionText(p) == PositionText(q)
    ensures p == q
  {
    var tp, tq := PositionText(p), PositionText(q);
    assert tp[0] == tq[0] && tp[1] == tq[1];
  }

  /** The quoted form recovers the character: the character sits between
      the quotes, or the escape `\0` stands for NUL. */
  lemma QuotedInjective(c: char, d: char)
    requires Quoted(c) == Quoted(d)
    ensures c == d
  {
    if c != '\0' && d != '\0' {
      assert Quoted(c)[1] == c && Quoted(d)[1] == d;
    }
  }
}
