/** Character classes, decimal numerals and dot-separated identifier lists,
    the lexical vocabulary of the parser, the formatter and the ordering. */
module Text {

  predicate IsDigit(c: char) {
    '0' <= c <= '9'
  }

  /** The characters `[0-9A-Za-z-]` allowed inside a pre-release or build segment. */
  predicate IsIdentChar(c: char) {
    ('A' <= c <= 'Z') || ('a' <= c <= 'z') || c == '-' || IsDigit(c)
  }

  predicate AllDigits(s: string) {
    forall i | 0 <= i < |s| :: IsDigit(s[i])
  }

  predicate AllIdentChars(s: string) {
    forall i | 0 <= i < |s| :: IsIdentChar(s[i])
  }

  /** Length of the longest prefix of `s` made of ASCII digits. */
  function DigitRunLen(s: string): (n: nat)
    ensures n <= |s|
    ensures forall i | 0 <= i < n :: IsDigit(s[i])
    ensures n < |s| ==> !IsDigit(s[n])
  {
    if |s| == 0 || !IsDigit(s[0]) then 0 else 1 + DigitRunLen(s[1..])
  }

  /** Length of the longest prefix of `s` made of identifier characters. */
  function IdentRunLen(s: string): (n: nat)
    ensures n <= |s|
    ensures forall i | 0 <= i < n :: IsIdentChar(s[i])
    ensures n < |s| ==> !IsIdentChar(s[n])
  {
    if |s| == 0 || !IsIdentChar(s[0]) then 0 else 1 + IdentRunLen(s[1..])
  }

  // ---------------------------------------------------------------------
  // Splitting on '.', with the semantics of JavaScript's `split('.')`:
  // the empty string splits into one empty part, and every '.' separates
  // two (possibly empty) parts.
  // ---------------------------------------------------------------------

  /** Index of the first '.' in `s`, or `|s|` when there is none. */
  function DotIndex(s: string): (i: nat)
    ensures i <= |s|
    ensures forall j | 0 <= j < i :: s[j] != '.'
    ensures i < |s| ==> s[i] == '.'
  {
    if |s| == 0 || s[0] == '.' then 0 else 1 + DotIndex(s[1..])
  }

  function Split(s: string): (parts: seq<string>)
    ensures |parts| > 0
    ensures forall k | 0 <= k < |parts| :: '.' !in parts[k]
    decreases |s|
  {
    var i := DotIndex(s);
    if i == |s| then [s] else [s[..i]] + Split(s[i + 1..])
  }

  function Join(parts: seq<string>): string
    requires |parts| > 0
  {
    if |parts| == 1 then parts[0] else parts[0] + "." + Join(parts[1..])
  }

  /** Splitting loses nothing: joining the parts gives the string back. */
  lemma {:induction false} JoinSplit(s: string)
    ensures Join(Split(s)) == s
    decreases |s|
  {
    var i := DotIndex(s);
    if i < |s| {
      var parts := Split(s);
      var tail := Split(s[i + 1..]);
      assert parts[1..] == tail;
      JoinSplit(s[i + 1..]);
      Decompose(s, i);
    }
  }

  /** A sequence around one of its positions. */
  lemma Decompose<T>(s: seq<T>, i: nat)
    requires i < |s|
    ensures s == s[..i] + [s[i]] + s[i + 1..]
  {
  }

  /** A string cut around one of its dots. */
  lemma DotSplit(s: string, i: nat)
    requires i < |s| && s[i] == '.'
    ensures s == s[..i] + "." + s[i + 1..]
  {
    Decompose(s, i);
    assert [s[i]] == ".";
  }

  /** Regrouping three concatenated sequences to the right. */
  lemma Assoc3<T>(a: seq<T>, b: seq<T>, c: seq<T>)
    ensures a + b + c == a + (b + c)
  {
  }

  /** A prefix of `t` followed by a split of the rest of `t` is `t`. */
  lemma PrefixThen<T>(t: seq<T>, k: nat, a: seq<T>, b: seq<T>)
    requires k <= |t| && a + b == t[k..]
    ensures (t[..k] + a) + b == t
  {
    assert (t[..k] + a) + b == t[..k] + (a + b);
  }

  /** Regrouping four concatenated sequences to the right. */
  lemma Assoc4<T>(a: seq<T>, b: seq<T>, c: seq<T>, d: seq<T>)
    ensures a + b + c + d == a + (b + (c + d))
  {
  }

  /** Regrouping a three-part dotted string to the right. */
  lemma Regroup(a: string, b: string, c: string)
    ensures a + "." + b + "." + c == a + "." + (b + "." + c)
  {
  }

  /** A string without '.' is a single part. */
  lemma SplitNoDot(seg: string)
    requires '.' !in seg
    ensures Split(seg) == [seg]
  {
  }

  /** A dot-free segment followed by '.' contributes exactly one part. */
  lemma SplitCons(seg: string, rest: string)
    requires '.' !in seg
    ensures Split(seg + "." + rest) == [seg] + Split(rest)
  {
    var s := seg + "." + rest;
    var i := DotIndex(s);
    assert s[|seg|] == '.';
    assert i == |seg|;
    assert s[..i] == seg;
    assert s[i + 1..] == rest;
  }

  /** Splitting a '.'-joined pair of strings splits each of them. */
  lemma {:induction false} SplitAppend(a: string, b: string)
    ensures Split(a + "." + b) == Split(a) + Split(b)
    decreases |a|
  {
    var i := DotIndex(a);
    var seg := a[..i];
    assert '.' !in seg;
    if i == |a| {
      assert seg == a;
      SplitNoDot(a);
      SplitCons(a, b);
    } else {
      var a2 := a[i + 1..];
      Decompose(a, i);
      Regroup(seg, a2, b);
      SplitCons(seg, a2 + "." + b);
      SplitAppend(a2, b);
      assert Split(a) == [seg] + Split(a2);
    }
  }

  /** Joining dot-free parts and splitting again gives the parts back. */
  lemma {:induction false} SplitJoin(parts: seq<string>)
    requires |parts| > 0
    requires forall k | 0 <= k < |parts| :: '.' !in parts[k]
    ensures Split(Join(parts)) == parts
    decreases |parts|
  {
    if |parts| == 1 {
      SplitNoDot(parts[0]);
    } else {
      SplitJoin(parts[1..]);
      SplitCons(parts[0], Join(parts[1..]));
    }
  }

  // ---------------------------------------------------------------------
  // Decimal numerals.
  // ---------------------------------------------------------------------

  function DigitValue(c: char): nat
    requires IsDigit(c)
  {
    c as int - '0' as int
  }

  function DigitChar(d: nat): (c: char)
    requires d < 10
    ensures IsDigit(c) && DigitValue(c) == d
  {
    ('0' as int + d) as char
  }

  /** The value of a digit string read most significant digit first, the way
      the parser accumulates `value * 10 + digit`. */
  function DecimalValue(s: string): nat
    requires AllDigits(s)
  {
    if |s| == 0 then 0 else DecimalValue(s[..|s| - 1]) * 10 + DigitValue(s[|s| - 1])
  }

  /** Canonical decimal rendering of a number, as JavaScript's template
      literal renders the non-negative integers a JavaScript number holds
      exactly. */
  function NatToString(n: nat): (s: string)
    ensures |s| > 0 && AllDigits(s)
    ensures s[0] == '0' ==> s == "0"
    ensures DecimalValue(s) == n
  {
    if n < 10 then [DigitChar(n)]
    else
      var p := NatToString(n / 10);
      var s := p + [DigitChar(n % 10)];
      assert s[..|s| - 1] == p;
      s
  }

  /** A numeral whose first digit is not zero has a positive value. */
  lemma {:induction false} LeadingDigitPositive(s: string)
    requires |s| > 0 && AllDigits(s) && s[0] != '0'
    ensures DecimalValue(s) > 0
    decreases |s|
  {
    if |s| > 1 {
      var p := s[..|s| - 1];
      assert p[0] == s[0];
      LeadingDigitPositive(p);
    }
  }

  /** Every numeral without a redundant leading zero is the rendering of its
      own value: rendering inverts reading on canonical numerals. */
  lemma {:induction false} DecimalCanonical(s: string)
    requires |s| > 0 && AllDigits(s)
    requires s[0] == '0' ==> |s| == 1
    ensures NatToString(DecimalValue(s)) == s
    decreases |s|
  {
    var v := DecimalValue(s);
    if |s| == 1 {
      assert s[..0] == [];
      assert DecimalValue(s[..0]) == 0;
      assert v == DigitValue(s[0]);
      assert NatToString(v) == [DigitChar(v)];
    } else {
      var p := s[..|s| - 1];
      assert p[0] == s[0];
      LeadingDigitPositive(p);
      DecimalCanonical(p);
      assert v / 10 == DecimalValue(p);
      assert v % 10 == DigitValue(s[|s| - 1]);
      assert DigitChar(v % 10) == s[|s| - 1];
      assert s == p + [s[|s| - 1]];
    }
  }

  /** Rendering is injective: different numbers render differently. */
  lemma NatToStringInjective(m: nat, n: nat)
    requires NatToString(m) == NatToString(n)
    ensures m == n
  {
  }

  /** The string with its leading '0' characters removed (`replace(/^0+/, '')`). */
  function StripLeadingZeros(s: string): (t: string)
    ensures |t| <= |s| && t == s[|s| - |t|..]
    ensures forall i | 0 <= i < |s| - |t| :: s[i] == '0'
    ensures |t| > 0 ==> t[0] != '0'
  {
    if |s| > 0 && s[0] == '0' then StripLeadingZeros(s[1..]) else s
  }
}
