/**
 * The parts of `java.lang.String` and `java.lang.Character` that the client
 * relies on, over strings of Unicode scalar values.
 */
module JavaString {

  /** A character `String.trim()` strips: anything up to U+0020. */
  predicate IsTrimmable(c: char) {
    c <= ' '
  }

  function StripLeading(s: string): (r: string)
    ensures |r| <= |s|
    ensures r != [] ==> !IsTrimmable(r[0])
    decreases |s|
  {
    if s != [] && IsTrimmable(s[0]) then StripLeading(s[1..]) else s
  }

  function StripTrailing(s: string): (r: string)
    ensures |r| <= |s| && r == s[..|r|]
    ensures r != [] ==> !IsTrimmable(r[|r| - 1])
    decreases |s|
  {
    if s != [] && IsTrimmable(s[|s| - 1]) then StripTrailing(s[..|s| - 1]) else s
  }

  /** `s.trim()`: the string without its leading and trailing characters up to U+0020. */
  function Trim(s: string): (r: string)
    ensures |r| <= |s|
    ensures r != [] ==> !IsTrimmable(r[0]) && !IsTrimmable(r[|r| - 1])
  {
    StripTrailing(StripLeading(s))
  }

  lemma {:induction false} StripLeadingEmpty(s: string)
    ensures StripLeading(s) == [] <==> forall i :: 0 <= i < |s| ==> IsTrimmable(s[i])
    decreases |s|
  {
    if s != [] {
      StripLeadingEmpty(s[1..]);
      assert forall i :: 0 < i < |s| ==> s[i] == s[1..][i - 1];
    }
  }

  /** Stripping the tail never gets past a character that is not trimmable. */
  lemma {:induction false} StripTrailingKeepsHead(s: string)
    requires s != [] && !IsTrimmable(s[0])
    ensures StripTrailing(s) != []
    decreases |s|
  {
    if IsTrimmable(s[|s| - 1]) {
      StripTrailingKeepsHead(s[..|s| - 1]);
    }
  }

  /** `s.trim().isEmpty()` holds exactly when every character of `s` is at most U+0020. */
  lemma TrimEmptyIffAllTrimmable(s: string)
    ensures Trim(s) == [] <==> forall i :: 0 <= i < |s| ==> IsTrimmable(s[i])
  {
    StripLeadingEmpty(s);
    if StripLeading(s) != [] {
      StripTrailingKeepsHead(StripLeading(s));
    }
  }

  /**
   * `Character.isWhitespace`: a Unicode space, line or paragraph separator
   * other than the no-break spaces U+00A0, U+2007 and U+202F, or one of
   * U+0009-U+000D and U+001C-U+001F.
   */
  predicate IsWhitespace(c: char) {
    || '\t' <= c <= '\r'
    || '\U{1C}' <= c <= ' '
    || c == '\U{1680}'
    || '\U{2000}' <= c <= '\U{2006}'
    || '\U{2008}' <= c <= '\U{200A}'
    || c == '\U{2028}' || c == '\U{2029}'
    || c == '\U{205F}' || c == '\U{3000}'
  }

  /** The number of whitespace characters at the head of `s` (`indexOfNonWhitespace`). */
  function LeadingWhitespace(s: string): (n: nat)
    ensures n <= |s|
    decreases |s|
  {
    if s != [] && IsWhitespace(s[0]) then 1 + LeadingWhitespace(s[1..]) else 0
  }

  /** `s.isBlank()`: the first non-whitespace character is past the end. */
  predicate IsBlankString(s: string) {
    LeadingWhitespace(s) == |s|
  }

  lemma {:induction false} BlankStringIffAllWhitespace(s: string)
    ensures IsBlankString(s) <==> forall i :: 0 <= i < |s| ==> IsWhitespace(s[i])
    decreases |s|
  {
    if s != [] {
      BlankStringIffAllWhitespace(s[1..]);
      assert forall i :: 0 < i < |s| ==> s[i] == s[1..][i - 1];
    }
  }

  /** The character classes the client's regular expression uses. */
  datatype CharClass = Digit | Literal(c: char)

  /** `class{count}`: exactly `count` characters of one class. */
  datatype Atom = Atom(cls: CharClass, count: nat)

  predicate InClass(c: char, cls: CharClass) {
    match cls
    case Digit => '0' <= c <= '9'
    case Literal(d) => c == d
  }

  /** `s.matches(p)` for a pattern that is a concatenation of fixed repetitions: the whole of `s` must match. */
  predicate Matches(s: string, p: seq<Atom>)
    decreases |p|
  {
    if p == [] then s == []
    else
      var n := p[0].count;
      n <= |s| && (forall i :: 0 <= i < n ==> InClass(s[i], p[0].cls)) && Matches(s[n..], p[1..])
  }

  function DigitChar(d: nat): (c: char)
    requires d < 10
    ensures '0' <= c <= '9'
  {
    ('0' as int + d) as char
  }

  function DigitValue(c: char): (d: nat)
    requires '0' <= c <= '9'
    ensures d < 10 && DigitChar(d) == c
    ensures forall e :: 0 <= e < 10 && DigitChar(e) == c ==> e == d
  {
    (c as int - '0' as int) as nat
  }

  /** `Integer.toString(n)` for `n >= 0`: its decimal digits, most significant first. */
  function Decimal(n: nat): (s: string)
    ensures s != [] && forall i :: 0 <= i < |s| ==> '0' <= s[i] <= '9'
  {
    if n < 10 then [DigitChar(n)] else Decimal(n / 10) + [DigitChar(n % 10)]
  }

  /** The number a string of decimal digits denotes. */
  function DecimalValue(s: string): nat
    requires forall i :: 0 <= i < |s| ==> '0' <= s[i] <= '9'
  {
    if s == [] then 0 else 10 * DecimalValue(s[..|s| - 1]) + DigitValue(s[|s| - 1])
  }

  /** Reading back the digits of `Decimal(n)` gives `n`, and there is no leading zero. */
  lemma {:induction false} DecimalRoundTrip(n: nat)
    ensures DecimalValue(Decimal(n)) == n
    ensures Decimal(n)[0] == '0' ==> n == 0
  {
    var s := Decimal(n);
    if n < 10 {
      assert DigitValue(s[0]) == n;
      assert s[..0] == [];
    } else {
      var front := Decimal(n / 10);
      DecimalRoundTrip(n / 10);
      assert s == front + [DigitChar(n % 10)];
      assert s[..|s| - 1] == front;
      assert DigitValue(s[|s| - 1]) == n % 10;
      assert s[0] == front[0];
    }
  }

  /** `String.join(sep, parts)`. */
  function Join(sep: string, parts: seq<string>): (r: string)
    ensures parts == [] ==> r == []
    ensures |parts| == 1 ==> r == parts[0]
  {
    if parts == [] then []
    else if |parts| == 1 then parts[0]
    else parts[0] + sep + Join(sep, parts[1..])
  }

  /** Joining a concatenation puts one separator between the two joined halves. */
  lemma {:induction false} JoinAppend(sep: string, a: seq<string>, b: seq<string>)
    requires a != [] && b != []
    ensures Join(sep, a + b) == Join(sep, a) + sep + Join(sep, b)
    decreases |a|
  {
    assert (a + b)[1..] == a[1..] + b;
    if |a| > 1 {
      JoinAppend(sep, a[1..], b);
    }
  }
}
