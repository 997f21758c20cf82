/** The shape check that `searchRequirements` applies to the e-mail address
    before it contacts the server: trim, lower-case, reject the empty
    string, then test `/^[^\s@]+@[^\s@]+\.[^\s@]+$/`. */
module Email {
  import opened Strings

  /** The character class `[^\s@]`. */
  predicate PlainChar(c: char) {
    c != '@' && !IsWhitespace(c)
  }

  /** `[^\s@]+`: one or more plain characters. */
  predicate PlainRun(s: string) {
    |s| > 0 && forall i :: 0 <= i < |s| ==> PlainChar(s[i])
  }

  /** The pattern matches `s` with its `@` at `at` and its literal `.` at `dot`. */
  predicate MatchesAt(s: string, at: int, dot: int) {
    0 <= at < dot < |s| && s[at] == '@' && s[dot] == '.' &&
    PlainRun(s[..at]) && PlainRun(s[at + 1..dot]) && PlainRun(s[dot + 1..])
  }

  /** `emailRegex.test(s)`: some choice of the `@` and of the `.` matches. */
  predicate MatchesEmailPattern(s: string) {
    exists at, dot | 0 <= at < dot < |s| :: MatchesAt(s, at, dot)
  }

  /** The domain holds a `.` that is neither its first nor its last character. */
  predicate HasInnerDot(domain: string) {
    exists k | 0 < k < |domain| - 1 :: domain[k] == '.'
  }

  /** The address in plain terms: no whitespace, exactly one `@`, a non-empty
      local part before it, and an inner `.` in the domain after it. */
  predicate WellShaped(s: string) {
    var at := FirstIndex(s, '@');
    NoWhitespace(s) && Count(s, '@') == 1 && 0 < at < |s| && HasInnerDot(s[at + 1..])
  }

  /** The regular expression accepts exactly the well-shaped addresses. */
  lemma {:induction false} PatternMeansWellShaped(s: string)
    ensures MatchesEmailPattern(s) <==> WellShaped(s)
  {
    if MatchesEmailPattern(s) {
      var at, dot :| 0 <= at < dot < |s| && MatchesAt(s, at, dot);
      MatchImpliesShape(s, at, dot);
    }
    if WellShaped(s) {
      ShapeImpliesMatch(s);
    }
  }

  lemma MatchImpliesShape(s: string, at: int, dot: int)
    requires MatchesAt(s, at, dot)
    ensures WellShaped(s)
  {
    var local, mid, tail := s[..at], s[at + 1..dot], s[dot + 1..];
    assert s == local + ['@'] + (mid + ['.'] + tail);
    assert '@' !in local && '@' !in mid && '@' !in tail by {
      assert forall i :: 0 <= i < |local| ==> PlainChar(local[i]);
      assert forall i :: 0 <= i < |mid| ==> PlainChar(mid[i]);
      assert forall i :: 0 <= i < |tail| ==> PlainChar(tail[i]);
    }
    CountZero(local, '@');
    CountZero(mid, '@');
    CountZero(tail, '@');
    CountConcat(local, ['@'], '@');
    CountConcat(local + ['@'], mid + ['.'] + tail, '@');
    CountConcat(mid, ['.'], '@');
    CountConcat(mid + ['.'], tail, '@');
    assert FirstIndex(s, '@') == at by {
      assert s[..at] == local;
    }
    forall i | 0 <= i < |s| ensures !IsWhitespace(s[i]) {
      if i < at { assert s[i] == local[i]; }
      else if at < i < dot { assert s[i] == mid[i - at - 1]; }
      else if dot < i { assert s[i] == tail[i - dot - 1]; }
    }
    var domain := s[at + 1..];
    assert domain[dot - at - 1] == '.';
  }

  lemma ShapeImpliesMatch(s: string)
    requires WellShaped(s)
    ensures MatchesEmailPattern(s)
  {
    var at := FirstIndex(s, '@');
    var domain := s[at + 1..];
    var k :| 0 < k < |domain| - 1 && domain[k] == '.';
    var dot := at + 1 + k;
    assert s == s[..at] + [s[at]] + domain;
    CountConcat(s[..at] + [s[at]], domain, '@');
    CountConcat(s[..at], [s[at]], '@');
    CountZero(s[..at], '@');
    CountZero(domain, '@');
    assert PlainRun(s[..at]);
    var mid, tail := s[at + 1..dot], s[dot + 1..];
    forall i | 0 <= i < |mid| ensures PlainChar(mid[i]) {
      assert mid[i] == domain[i];
    }
    forall i | 0 <= i < |tail| ensures PlainChar(tail[i]) {
      assert tail[i] == domain[k + 1 + i];
    }
    assert MatchesAt(s, at, dot);
  }

  /** What `searchRequirements` does with the typed address before any request. */
  datatype EmailCheck = MissingEmail | MalformedEmail | ValidEmail(address: string)

  function CheckSearchEmail(input: string): EmailCheck {
    var email := ToLower(Trim(input));
    if email == [] then MissingEmail
    else if !MatchesEmailPattern(email) then MalformedEmail
    else ValidEmail(email)
  }

  /** An address is accepted exactly when, trimmed and lower-cased, it is
      non-empty and well shaped; the accepted address is that normal form. */
  lemma SearchEmailAccepted(input: string)
    ensures var email := ToLower(Trim(input));
      && (CheckSearchEmail(input).ValidEmail? <==> email != [] && WellShaped(email))
      && (CheckSearchEmail(input).ValidEmail? ==> CheckSearchEmail(input).address == email)
      && (CheckSearchEmail(input).MissingEmail? <==> AllWhitespace(input))
  {
    var t := Trim(input);
    PatternMeansWellShaped(ToLower(t));
  }

  /** An address that already matches and has no upper-case letter is
      accepted as it is: it has no surrounding whitespace to trim. */
  lemma AcceptsMatchingAddress(email: string, at: int, dot: int)
    requires MatchesAt(email, at, dot)
    requires forall i :: 0 <= i < |email| ==> !('A' <= email[i] <= 'Z')
    ensures CheckSearchEmail(email) == ValidEmail(email)
  {
    var tld := email[dot + 1..];
    assert PlainChar(email[..at][0]) && PlainChar(tld[|tld| - 1]);
    TrimLeavesClean(email);
    ToLowerLeavesLower(email);
    assert MatchesEmailPattern(email);
  }

  /** `user@example.com` is accepted as it is. */
  lemma AcceptsExampleAddress(e: string)
    requires e == "user@example.com"
    ensures CheckSearchEmail(e) == ValidEmail(e)
  {
    var local, host, tld := e[..4], e[5..12], e[13..];
    assert local == "user" && host == "example" && tld == "com";
    assert MatchesAt(e, 4, 12);
    AcceptsMatchingAddress(e, 4, 12);
  }

  /** An input that is not blank but has no `@` is rejected as malformed:
      trimming and lower-casing cannot create an `@`. */
  lemma RejectsWithoutAt(input: string)
    requires '@' !in input && !AllWhitespace(input)
    ensures CheckSearchEmail(input) == MalformedEmail
  {
    var trimmed := Trim(input);
    var email := ToLower(trimmed);
    forall i | 0 <= i < |email| ensures email[i] != '@' {
      LowerCharKeeps(trimmed[i], '@');
    }
    PatternMeansWellShaped(email);
    CountZero(email, '@');
  }

  /** `not-an-email` is rejected as malformed. */
  lemma RejectsNotAnEmail(e: string)
    requires e == "not-an-email"
    ensures CheckSearchEmail(e) == MalformedEmail
  {
    assert !IsWhitespace(e[0]);
    assert '@' !in e;
    RejectsWithoutAt(e);
  }
}
