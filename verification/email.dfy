/** The email shape the contact form accepts: the regular expression
    `/^[^\s@]+@[^\s@]+\.[^\s@]+$/`.

    `MatchesEmailPattern` is the language of that expression, written as a
    decomposition of the whole string into three non-empty runs joined by
    `@` and `.`; `IsValidEmail` is an executable check that splits the string
    at its first `@` instead. They are proved to agree on every string. */
module EmailPattern {
  import opened Optional

  /** The characters ECMAScript's `\s` class matches: the WhiteSpace and
      LineTerminator code points of section 22.2.2.9 of ECMA-262. */
  predicate IsJsWhitespace(c: char) {
    var n := c as int;
    n == 0x09 || n == 0x0A || n == 0x0B || n == 0x0C || n == 0x0D || n == 0x20 ||
    n == 0xA0 || n == 0x1680 || (0x2000 <= n <= 0x200A) || n == 0x2028 ||
    n == 0x2029 || n == 0x202F || n == 0x205F || n == 0x3000 || n == 0xFEFF
  }

  /** A character of the class `[^\s@]`. */
  predicate IsAddressChar(c: char) {
    !IsJsWhitespace(c) && c != '@'
  }

  /** Every character of `s` is in `[^\s@]` (the `+` is checked separately). */
  predicate AllAddressChars(s: string) {
    forall k :: 0 <= k < |s| ==> IsAddressChar(s[k])
  }

  /** `s` is in the language of `^[^\s@]+@[^\s@]+\.[^\s@]+$`: an `@` at
      position `i` and a `.` at position `j` cut it into three non-empty runs
      of `[^\s@]`. */
  ghost predicate MatchesEmailPattern(s: string) {
    exists i, j :: IsCut(s, i, j)
  }

  /** The `@` at `i` and the `.` at `j` cut `s` into local part, host and
      top-level part, each a non-empty run of `[^\s@]`. */
  predicate IsCut(s: string, i: int, j: int) {
    0 < i && i + 1 < j && j + 1 < |s| && s[i] == '@' && s[j] == '.' &&
    AllAddressChars(s[..i]) && AllAddressChars(s[i + 1..j]) && AllAddressChars(s[j + 1..])
  }

  /** Position of the first occurrence of `c` in `s`. */
  function IndexOf(s: string, c: char): (r: Option<nat>)
    ensures r.Some? ==> r.value < |s| && s[r.value] == c &&
                        forall k :: 0 <= k < r.value ==> s[k] != c
    ensures r.None? ==> forall k :: 0 <= k < |s| ==> s[k] != c
  {
    if |s| == 0 then None
    else if s[0] == c then Some(0)
    else match IndexOf(s[1..], c)
      case None => None
      case Some(k) => Some(k + 1)
  }

  /** The domain has a `.` with at least one character on each side. */
  predicate HasInnerDot(domain: string) {
    exists k :: 1 <= k < |domain| - 1 && domain[k] == '.'
  }

  /** The executable check: a non-empty local part before the first `@`, and
      after it a domain of `[^\s@]` characters containing an inner dot. */
  function IsValidEmail(s: string): (ok: bool)
    // an accepted address has no whitespace, exactly one `@`, and room for
    // at least one character in each of the three runs
    ensures ok ==> forall k :: 0 <= k < |s| ==> !IsJsWhitespace(s[k])
    ensures ok ==> multiset(s)['@'] == 1
    ensures ok ==> |s| >= 5
  {
    match IndexOf(s, '@')
    case None => false
    case Some(i) =>
      SingleAt(s, i);
      i > 0 && AllAddressChars(s[..i]) &&
      AllAddressChars(s[i + 1..]) && HasInnerDot(s[i + 1..])
  }

  /** An `@` with only address characters on both sides is the only one. */
  lemma SingleAt(s: string, i: nat)
    requires i < |s| && s[i] == '@'
    ensures AllAddressChars(s[..i]) && AllAddressChars(s[i + 1..]) ==> multiset(s)['@'] == 1
  {
    if AllAddressChars(s[..i]) && AllAddressChars(s[i + 1..]) {
      assert s == s[..i] + [s[i]] + s[i + 1..];
      assert '@' !in s[..i] && '@' !in s[i + 1..];
    }
  }

  /** The check accepts exactly the strings the regular expression matches. */
  lemma ValidEmailMatchesPattern(s: string)
    ensures IsValidEmail(s) <==> MatchesEmailPattern(s)
  {
    if IsValidEmail(s) {
      ValidImpliesPattern(s);
    }
    if MatchesEmailPattern(s) {
      PatternImpliesValid(s);
    }
  }

  lemma ValidImpliesPattern(s: string)
    requires IsValidEmail(s)
    ensures MatchesEmailPattern(s)
  {
    var i := IndexOf(s, '@').value;
    var domain := s[i + 1..];
    var k :| 1 <= k < |domain| - 1 && domain[k] == '.';
    var j := i + 1 + k;
    assert s[j] == '.';
    assert s[i + 1..j] == domain[..k];
    assert s[j + 1..] == domain[k + 1..];
    AllAddressCharsSlice(domain, 0, k);
    AllAddressCharsSlice(domain, k + 1, |domain|);
    assert domain[0..k] == domain[..k];
    assert domain[k + 1..|domain|] == domain[k + 1..];
    assert IsCut(s, i, j);
  }

  lemma PatternImpliesValid(s: string)
    requires MatchesEmailPattern(s)
    ensures IsValidEmail(s)
  {
    var i, j :| IsCut(s, i, j);
    assert IndexOf(s, '@') == Some(i) by {
      FirstAtAfterLocalPart(s, i);
    }
    var domain := s[i + 1..];
    assert AllAddressChars(domain) && HasInnerDot(domain) by {
      var host, tld := s[i + 1..j], s[j + 1..];
      assert domain == host + "." + tld;
      DomainOfRuns(host, tld);
    }
  }

  /** An `@` preceded only by `[^\s@]` characters is the first `@`. */
  lemma FirstAtAfterLocalPart(s: string, i: nat)
    requires i < |s| && s[i] == '@' && AllAddressChars(s[..i])
    ensures IndexOf(s, '@') == Some(i)
  {
    forall k | 0 <= k < i ensures s[k] != '@' {
      assert s[..i][k] == s[k];
    }
  }

  /** Two non-empty runs of `[^\s@]` joined by a dot form a valid domain. */
  lemma DomainOfRuns(host: string, tld: string)
    requires |host| > 0 && |tld| > 0 && AllAddressChars(host) && AllAddressChars(tld)
    ensures AllAddressChars(host + "." + tld) && HasInnerDot(host + "." + tld)
  {
    var d := host + "." + tld;
    assert d[|host|] == '.';
    forall m | 0 <= m < |d| ensures IsAddressChar(d[m]) {
      if m < |host| {
        assert d[m] == host[m];
      } else if m > |host| {
        assert d[m] == tld[m - |host| - 1];
      }
    }
  }

  lemma AllAddressCharsSlice(s: string, a: nat, b: nat)
    requires a <= b <= |s| && AllAddressChars(s)
    ensures AllAddressChars(s[a..b])
  {
    assert forall m :: 0 <= m < b - a ==> s[a..b][m] == s[a + m];
  }

  /** The address used as the accepted example: `a`, `@`, `b`, `.`, `com`. */
  lemma AcceptsSimpleAddress()
    ensures MatchesEmailPattern("a@b.com")
  {
    var s := "a@b.com";
    assert s[..1] == "a" && s[2..3] == "b" && s[4..] == "com";
    assert IsCut(s, 1, 3);
  }

  /** A string without any `@` is rejected. */
  lemma RejectsWithoutAt(s: string)
    requires forall k :: 0 <= k < |s| ==> s[k] != '@'
    ensures !MatchesEmailPattern(s)
  {
  }

  lemma RejectsPlainWord()
    ensures !MatchesEmailPattern("not-an-email")
  {
    RejectsWithoutAt("not-an-email");
  }

  /** A dot right after the `@` does not count: `a@.com` is rejected. */
  lemma RejectsDotRightAfterAt()
    ensures !MatchesEmailPattern("a@.com")
  {
    var s := "a@.com";
    ValidEmailMatchesPattern(s);
    assert s[..1] == "a";
    FirstAtAfterLocalPart(s, 1);
    assert s[2..] == ".com";
  }
}
