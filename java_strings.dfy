/** The few java.lang / commons-lang string operations the modelled code relies on,
    written out over `seq<char>`: String.trim, toLowerCase and equalsIgnoreCase,
    StringUtils.isBlank / isNotEmpty, Boolean.parseBoolean, Integer.parseInt and
    Long.parseLong, Integer.toString for non-negative values, and StringTokenizer
    with a single delimiter character. */
module JavaStrings {
  import opened Wrappers

  // ---------------------------------------------------------------- trim

  /** String.trim drops every leading and trailing character whose code is at most U+0020. */
  predicate IsTrimmable(c: char) {
    c <= ' '
  }

  function TrimLeft(s: string): (r: string)
    ensures |r| <= |s| && r == s[|s| - |r|..]
    ensures r == [] || !IsTrimmable(r[0])
    ensures forall i | 0 <= i < |s| - |r| :: IsTrimmable(s[i])
  {
    if |s| > 0 && IsTrimmable(s[0]) then
      var r := TrimLeft(s[1..]);
      assert s[1..][|s| - 1 - |r|..] == s[|s| - |r|..];
      assert forall i | 1 <= i < |s| - |r| :: s[i] == s[1..][i - 1];
      r
    else s
  }

  function TrimRight(s: string): (r: string)
    ensures |r| <= |s| && r == s[..|r|]
    ensures r == [] || !IsTrimmable(r[|r| - 1])
    ensures forall i | |r| <= i < |s| :: IsTrimmable(s[i])
  {
    if |s| > 0 && IsTrimmable(s[|s| - 1]) then
      var r := TrimRight(s[..|s| - 1]);
      assert s[..|s| - 1][..|r|] == s[..|r|];
      assert forall i | |r| <= i < |s| - 1 :: s[i] == s[..|s| - 1][i];
      r
    else s
  }

  /** Neither end of the result is trimmable (TrimEmpty says when it is empty). */
  function Trim(s: string): (r: string)
    ensures |r| <= |s|
    ensures r == [] || (!IsTrimmable(r[0]) && !IsTrimmable(r[|r| - 1]))
  {
    TrimRight(TrimLeft(s))
  }

  /** The trimmed string is empty exactly when every character is trimmable. */
  lemma {:induction false} TrimEmpty(s: string)
    ensures Trim(s) == [] <==> forall i | 0 <= i < |s| :: IsTrimmable(s[i])
  {
    var l := TrimLeft(s);
    if l != [] {
      assert s[|s| - |l|] == l[0];
      assert TrimRight(l)[0] == l[0];
    }
  }

  /** Trimming only removes characters. */
  lemma {:induction false} TrimKeepsAbsent(s: string, c: char)
    requires c !in s
    ensures c !in Trim(s)
  {
    var l := TrimLeft(s);
    forall k | 0 <= k < |l| ensures l[k] != c {
      assert l[k] == s[|s| - |l| + k];
    }
    var r := TrimRight(l);
    forall k | 0 <= k < |r| ensures r[k] != c {
      assert r[k] == l[k];
    }
  }

  lemma {:induction false} TrimIdempotent(s: string)
    ensures Trim(Trim(s)) == Trim(s)
  {
    var t := Trim(s);
    if t != [] {
      assert TrimLeft(t) == t;
      assert TrimRight(t) == t;
    }
  }

  // ---------------------------------------------------------------- case

  /** toLowerCase restricted to the ASCII letters. */
  function LowerChar(c: char): char {
    if 'A' <= c <= 'Z' then (c as int + 32) as char else c
  }

  /** Every ASCII capital becomes its small letter; every other character is kept. */
  function ToLower(s: string): (r: string)
    ensures |r| == |s|
    ensures forall i | 0 <= i < |r| :: !('A' <= r[i] <= 'Z')
    ensures forall i | 0 <= i < |s| :: 'A' <= s[i] <= 'Z' ==> 'a' <= r[i] <= 'z' && r[i] as int - 'a' as int == s[i] as int - 'A' as int
    ensures forall i | 0 <= i < |s| :: !('A' <= s[i] <= 'Z') ==> r[i] == s[i]
  {
    seq(|s|, i requires 0 <= i < |s| => LowerChar(s[i]))
  }

  /** Lower-casing twice is lower-casing once. */
  lemma {:induction false} ToLowerIdempotent(s: string)
    ensures ToLower(ToLower(s)) == ToLower(s)
  {
    var r := ToLower(s);
    assert forall i | 0 <= i < |r| :: ToLower(r)[i] == r[i];
  }

  /** Lower-casing leaves no ASCII capital and keeps every character that is not a letter. */
  lemma {:induction false} LowerCaseFacts(s: string, c: char)
    requires c !in s && !('A' <= c <= 'Z') && !('a' <= c <= 'z')
    ensures c !in ToLower(s)
    ensures forall k | 0 <= k < |s| :: !('A' <= ToLower(s)[k] <= 'Z')
  {
    var r := ToLower(s);
    forall k | 0 <= k < |r| ensures r[k] != c {
      assert r[k] == LowerChar(s[k]);
    }
  }

  /** Equal lengths and equal characters once lower-cased. */
  predicate EqualsIgnoreCase(a: string, b: string) {
    |a| == |b| && forall i | 0 <= i < |a| :: LowerChar(a[i]) == LowerChar(b[i])
  }

  lemma EqualsIgnoreCaseIsLowerEquality(a: string, b: string)
    ensures EqualsIgnoreCase(a, b) <==> ToLower(a) == ToLower(b)
  {
    if ToLower(a) == ToLower(b) {
      assert |a| == |ToLower(a)|;
      forall i | 0 <= i < |a| ensures LowerChar(a[i]) == LowerChar(b[i]) {
        assert ToLower(a)[i] == ToLower(b)[i];
      }
    }
  }

  predicate StartsWith(s: string, prefix: string) {
    |prefix| <= |s| && s[..|prefix|] == prefix
  }

  // ---------------------------------------------------------------- blank / empty

  /** Character.isWhitespace: the Unicode space, line and paragraph separators other
      than the non-breaking ones, and the ASCII controls TAB, LF, VT, FF, CR and FS to US. */
  predicate IsJavaWhitespace(c: char)
    ensures c == '\U{A0}' || c == '\U{2007}' || c == '\U{202F}' ==> !IsJavaWhitespace(c)
    ensures c < '\U{80}' ==> (IsJavaWhitespace(c) <==> c == ' ' || ('\t' <= c <= '\r') || ('\U{1C}' <= c <= '\U{1F}'))
  {
    || c == ' ' || c == '\t' || c == '\n' || c == '\U{B}' || c == '\U{C}' || c == '\r'
    || ('\U{1C}' <= c <= '\U{1F}')
    || c == '\U{1680}' || ('\U{2000}' <= c <= '\U{2006}') || ('\U{2008}' <= c <= '\U{200A}')
    || c == '\U{2028}' || c == '\U{2029}' || c == '\U{205F}' || c == '\U{3000}'
  }

  /** StringUtils.isBlank: null, empty, or whitespace only. */
  predicate IsBlank(s: Option<string>) {
    s.None? || forall i | 0 <= i < |s.value| :: IsJavaWhitespace(s.value[i])
  }

  /** On ASCII text a blank string also trims to empty (the converse fails: trim also drops
      the controls below the space that are not whitespace). */
  lemma {:induction false} BlankAsciiTrimsEmpty(s: string)
    requires forall i | 0 <= i < |s| :: s[i] < '\U{80}'
    requires IsBlank(Some(s))
    ensures Trim(s) == []
  {
    TrimEmpty(s);
  }

  /** StringUtils.isNotEmpty: not null and at least one character. */
  predicate IsNotEmpty(s: Option<string>) {
    s.Some? && |s.value| > 0
  }

  /** `val == null || val.trim().isEmpty()`. */
  predicate IsNullOrTrimEmpty(s: Option<string>) {
    s.None? || Trim(s.value) == []
  }

  /** Boolean.parseBoolean: true exactly for a non-null, case-insensitive "true" (no trimming). */
  predicate ParseBoolean(s: Option<string>)
    ensures ParseBoolean(s) ==> s.Some? && |s.value| == 4
    ensures s.Some? && |s.value| > 0 && IsTrimmable(s.value[0]) ==> !ParseBoolean(s)
  {
    s.Some? && EqualsIgnoreCase(s.value, "true")
  }

  // ---------------------------------------------------------------- numbers

  const INT_MIN: int := -0x8000_0000
  const INT_MAX: int := 0x7FFF_FFFF
  const LONG_MIN: int := -0x8000_0000_0000_0000
  const LONG_MAX: int := 0x7FFF_FFFF_FFFF_FFFF

  predicate IsDigit(c: char) {
    '0' <= c <= '9'
  }

  predicate AllDigits(s: string) {
    forall i | 0 <= i < |s| :: IsDigit(s[i])
  }

  function DigitChar(d: nat): (c: char)
    requires d < 10
    ensures IsDigit(c)
  {
    ('0' as int + d) as char
  }

  function DigitsValue(s: string): nat
    requires AllDigits(s)
  {
    if |s| == 0 then 0 else DigitsValue(s[..|s| - 1]) * 10 + (s[|s| - 1] as int - '0' as int)
  }

  /** Optional '+' or '-', then one or more ASCII digits, then a value within [lo, hi];
      anything else is the NumberFormatException of the Java parsers (None). */
  function ParseInteger(s: string, lo: int, hi: int): (r: Option<int>)
    ensures r.Some? ==> lo <= r.value <= hi
    ensures r.Some? ==> |s| > 0
    // a bare digit string reads as its decimal value
    ensures |s| > 0 && AllDigits(s) ==>
      r == if lo <= DigitsValue(s) <= hi then Some(DigitsValue(s)) else None
    // a sign followed by digits reads as the signed decimal value
    ensures |s| > 1 && (s[0] == '-' || s[0] == '+') && AllDigits(s[1..]) ==>
      var v: int := if s[0] == '-' then -(DigitsValue(s[1..]) as int) else DigitsValue(s[1..]);
      r == if lo <= v <= hi then Some(v) else None
    // anything else is rejected
    ensures !(|s| > 0 && AllDigits(s)) && !(|s| > 1 && (s[0] == '-' || s[0] == '+') && AllDigits(s[1..])) ==> r.None?
  {
    var negative := |s| > 0 && s[0] == '-';
    var digits := if |s| > 0 && (s[0] == '-' || s[0] == '+') then s[1..] else s;
    if |digits| == 0 || !AllDigits(digits) then None
    else
      var v: int := if negative then -(DigitsValue(digits) as int) else DigitsValue(digits);
      if lo <= v <= hi then Some(v) else None
  }

  /** Integer.parseInt. */
  function ParseInt(s: string): Option<int> {
    ParseInteger(s, INT_MIN, INT_MAX)
  }

  /** Long.parseLong. */
  function ParseLong(s: string): Option<int> {
    ParseInteger(s, LONG_MIN, LONG_MAX)
  }

  /** Integer.toString of a non-negative value. */
  function NatToString(n: nat): (r: string)
    ensures |r| > 0 && AllDigits(r)
  {
    if n < 10 then [DigitChar(n)] else NatToString(n / 10) + [DigitChar(n % 10)]
  }

  lemma {:induction false} NatToStringValue(n: nat)
    ensures DigitsValue(NatToString(n)) == n
  {
    var s := NatToString(n);
    if n >= 10 {
      assert s[..|s| - 1] == NatToString(n / 10);
      NatToStringValue(n / 10);
    } else {
      assert s[..|s| - 1] == [];
    }
  }

  /** Printing then parsing a non-negative int gives it back. */
  lemma ParseIntOfNatToString(n: nat)
    requires n <= INT_MAX
    ensures ParseInt(NatToString(n)) == Some(n)
  {
    NatToStringValue(n);
    var s := NatToString(n);
    assert s[0] != '-' && s[0] != '+';
  }

  /** Distinct indices print differently. */
  lemma NatToStringInjective(a: nat, b: nat)
    requires a != b
    ensures NatToString(a) != NatToString(b)
  {
    NatToStringValue(a);
    NatToStringValue(b);
  }

  // ---------------------------------------------------------------- tokenizer

  /** Length of the run of non-delimiter characters at the front of `s`. */
  function TokenEnd(s: string, d: char): (k: nat)
    ensures k <= |s|
    ensures forall i | 0 <= i < k :: s[i] != d
    ensures k < |s| ==> s[k] == d
  {
    if |s| == 0 || s[0] == d then 0 else 1 + TokenEnd(s[1..], d)
  }

  /** The tokens a StringTokenizer with the single delimiter `d` returns, in order:
      the maximal non-empty runs of characters other than `d`. */
  function Tokens(s: string, d: char): (r: seq<string>)
    ensures forall i | 0 <= i < |r| :: |r[i]| > 0 && d !in r[i]
    decreases |s|
  {
    if |s| == 0 then []
    else if s[0] == d then Tokens(s[1..], d)
    else
      var k := TokenEnd(s, d);
      [s[..k]] + Tokens(s[k..], d)
  }

  lemma {:induction false} TokenEndBeforeDelimiter(a: string, b: string, d: char)
    ensures TokenEnd(a + [d] + b, d) == TokenEnd(a, d)
  {
    if |a| > 0 && a[0] != d {
      assert (a + [d] + b)[1..] == a[1..] + [d] + b;
      TokenEndBeforeDelimiter(a[1..], b, d);
    }
  }

  /** Tokenizing splits at every delimiter: the tokens of `a;b` are those of `a` followed by those of `b`. */
  lemma {:induction false} TokensSplit(a: string, b: string, d: char)
    ensures Tokens(a + [d] + b, d) == Tokens(a, d) + Tokens(b, d)
    decreases |a|, 1
  {
    var s := a + [d] + b;
    if |a| == 0 {
      assert s[1..] == b;
    } else if a[0] == d {
      assert s[1..] == a[1..] + [d] + b;
      TokensSplit(a[1..], b, d);
    } else {
      TokensSplitAtToken(a, b, d);
    }
  }

  /** The case of TokensSplit where `a` starts with a token. */
  lemma {:induction false} TokensSplitAtToken(a: string, b: string, d: char)
    requires |a| > 0 && a[0] != d
    ensures Tokens(a + [d] + b, d) == Tokens(a, d) + Tokens(b, d)
    decreases |a|, 0
  {
    var s := a + [d] + b;
    var k := TokenEnd(a, d);
    TokenEndBeforeDelimiter(a, b, d);
    TokensUnfold(a, d);
    TokensUnfold(s, d);
    SplitSlices(a, b, d, k);
    TokensSplit(a[k..], b, d);
  }

  lemma TokensUnfold(s: string, d: char)
    requires |s| > 0 && s[0] != d
    ensures Tokens(s, d) == [s[..TokenEnd(s, d)]] + Tokens(s[TokenEnd(s, d)..], d)
  {
  }

  lemma SplitSlices(a: string, b: string, d: char, k: nat)
    requires k <= |a|
    ensures (a + [d] + b)[..k] == a[..k] && (a + [d] + b)[k..] == a[k..] + [d] + b
  {
  }

  /** A non-empty string without the delimiter is a single token. */
  lemma {:induction false} TokensOfPlain(s: string, d: char)
    requires |s| > 0 && d !in s
    ensures Tokens(s, d) == [s]
  {
    var k := TokenEnd(s, d);
    assert s[..k] == s && s[k..] == [];
  }

  // ---------------------------------------------------------------- setting words

  /** Two words the usersync settings use: "ldap" needs no trimming and equals "LDAP"
      ignoring case; "false" needs no trimming and does not read as true. */
  lemma SettingWords()
    ensures Trim("ldap") == "ldap" && EqualsIgnoreCase("ldap", "LDAP")
    ensures Trim("false") == "false" && !ParseBoolean(Some("false"))
  {
    assert TrimLeft("ldap") == "ldap";
    assert TrimRight("ldap") == "ldap";
    assert TrimLeft("false") == "false";
    assert TrimRight("false") == "false";
    assert LowerChar('L') == 'l' && LowerChar('D') == 'd' && LowerChar('A') == 'a' && LowerChar('P') == 'p';
    assert LowerChar('l') == 'l' && LowerChar('d') == 'd' && LowerChar('a') == 'a' && LowerChar('p') == 'p';
  }
}
