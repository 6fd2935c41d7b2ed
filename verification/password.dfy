/**
 * The credential format checks: password strength and e-mail shape. Each
 * returns the first rule the input breaks, as a message, or None when the
 * input passes every rule.
 */
module Password {
  import opened Wrappers
  import opened Text

  const PasswordTooShort := "Password must be at least 8 characters long"
  const PasswordTooLong := "Password must be less than 128 characters"
  const PasswordNoLetter := "Password must contain at least one letter"
  const PasswordNoNumber := "Password must contain at least one number"
  const EmailInvalid := "Invalid email format"
  const EmailTooLong := "Email must be less than 255 characters"

  /** The class `[a-zA-Z]`. */
  predicate IsAsciiLetter(c: char) {
    ('a' <= c <= 'z') || ('A' <= c <= 'Z')
  }

  /** The class `[0-9]`. */
  predicate IsAsciiDigit(c: char) {
    '0' <= c <= '9'
  }

  /** `/[a-zA-Z]/.test(s)`: a left-to-right search for a letter. */
  function HasAsciiLetter(s: string): (r: bool)
    ensures r <==> exists k | 0 <= k < |s| :: IsAsciiLetter(s[k])
  {
    if s == [] then false
    else if IsAsciiLetter(s[0]) then true
    else
      var r := HasAsciiLetter(s[1..]);
      assert r <==> exists k | 1 <= k < |s| :: IsAsciiLetter(s[k]) by {
        if r {
          var k :| 0 <= k < |s[1..]| && IsAsciiLetter(s[1..][k]);
          assert s[k + 1] == s[1..][k];
        }
        if exists k | 1 <= k < |s| :: IsAsciiLetter(s[k]) {
          var k :| 1 <= k < |s| && IsAsciiLetter(s[k]);
          assert s[1..][k - 1] == s[k];
        }
      }
      r
  }

  /** `/[0-9]/.test(s)`. */
  function HasAsciiDigit(s: string): (r: bool)
    ensures r <==> exists k | 0 <= k < |s| :: IsAsciiDigit(s[k])
  {
    if s == [] then false
    else if IsAsciiDigit(s[0]) then true
    else
      var r := HasAsciiDigit(s[1..]);
      assert r <==> exists k | 1 <= k < |s| :: IsAsciiDigit(s[k]) by {
        if r {
          var k :| 0 <= k < |s[1..]| && IsAsciiDigit(s[1..][k]);
          assert s[k + 1] == s[1..][k];
        }
        if exists k | 1 <= k < |s| :: IsAsciiDigit(s[k]) {
          var k :| 1 <= k < |s| && IsAsciiDigit(s[k]);
          assert s[1..][k - 1] == s[k];
        }
      }
      r
  }

  /** The password rules, each on its own. */
  predicate LongEnough(p: string) { |p| >= 8 }
  predicate ShortEnough(p: string) { |p| <= 128 }
  predicate HasLetter(p: string) { exists k | 0 <= k < |p| :: IsAsciiLetter(p[k]) }
  predicate HasNumber(p: string) { exists k | 0 <= k < |p| :: IsAsciiDigit(p[k]) }

  /** `validatePassword`: the checks run in a fixed order and the first failure is reported. */
  function ValidatePassword(p: string): (r: Option<string>)
    ensures r.None? <==> LongEnough(p) && ShortEnough(p) && HasLetter(p) && HasNumber(p)
    ensures !LongEnough(p) ==> r == Some(PasswordTooShort)
    ensures LongEnough(p) && !ShortEnough(p) ==> r == Some(PasswordTooLong)
    ensures LongEnough(p) && ShortEnough(p) && !HasLetter(p) ==> r == Some(PasswordNoLetter)
    ensures LongEnough(p) && ShortEnough(p) && HasLetter(p) && !HasNumber(p) ==> r == Some(PasswordNoNumber)
  {
    if |p| < 8 then Some(PasswordTooShort)
    else if |p| > 128 then Some(PasswordTooLong)
    else if !HasAsciiLetter(p) then Some(PasswordNoLetter)
    else if !HasAsciiDigit(p) then Some(PasswordNoNumber)
    else None
  }

  /**
   * Both length bounds are inclusive, though the message for the upper bound
   * says "less than": a password with a letter and a digit passes at every
   * length from 8 to 128, and fails for length alone just outside them.
   */
  lemma PasswordBoundsInclusive(p: string)
    requires HasAsciiLetter(p) && HasAsciiDigit(p)
    ensures ValidatePassword(p) == None <==> 8 <= |p| <= 128
    ensures |p| == 7 ==> ValidatePassword(p) == Some(PasswordTooShort)
    ensures |p| == 129 ==> ValidatePassword(p) == Some(PasswordTooLong)
  {
  }

  // ---------------------------------------------------------------------------
  // E-mail
  // ---------------------------------------------------------------------------

  /** One or more characters of `[^\s@]`. */
  predicate PlainRun(s: string) {
    |s| > 0 && forall k | 0 <= k < |s| :: s[k] != '@' && !IsJsWhitespace(s[k])
  }

  /**
   * The language of `^[^\s@]+@[^\s@]+\.[^\s@]+$`: some split of the string
   * into a run, `@`, a run, `.`, and a run.
   */
  ghost predicate RegexMatches(s: string) {
    exists a, d | 0 <= a < d < |s| ::
      && s[a] == '@' && s[d] == '.'
      && PlainRun(s[..a]) && PlainRun(s[a + 1..d]) && PlainRun(s[d + 1..])
  }

  /**
   * The same language described by its conditions: exactly one `@`, no
   * white space, a non-empty local part, and a `.` in the domain with at
   * least one character on each side.
   */
  predicate EmailShape(s: string) {
    && (forall k | 0 <= k < |s| :: !IsJsWhitespace(s[k]))
    && exists a | 0 < a < |s| ::
      && s[a] == '@'
      && (forall k | 0 <= k < |s| && k != a :: s[k] != '@')
      && exists d | a + 1 < d < |s| - 1 :: s[d] == '.'
  }

  /** The characters of a split with plain runs are plain, except the `@` itself. */
  lemma SplitIsPlain(s: string, a: int, d: int)
    requires 0 <= a < d < |s| && s[a] == '@' && s[d] == '.'
    requires PlainRun(s[..a]) && PlainRun(s[a + 1..d]) && PlainRun(s[d + 1..])
    ensures forall k | 0 <= k < |s| && k != a :: s[k] != '@' && !IsJsWhitespace(s[k])
  {
    forall k | 0 <= k < |s| && k != a ensures s[k] != '@' && !IsJsWhitespace(s[k]) {
      if k < a { assert s[..a][k] == s[k]; }
      else if k < d { assert s[a + 1..d][k - a - 1] == s[k]; }
      else if k > d { assert s[d + 1..][k - d - 1] == s[k]; }
    }
  }

  lemma MatchGivesShape(s: string)
    requires RegexMatches(s)
    ensures EmailShape(s)
  {
    var a, d :| 0 <= a < d < |s| && s[a] == '@' && s[d] == '.'
      && PlainRun(s[..a]) && PlainRun(s[a + 1..d]) && PlainRun(s[d + 1..]);
    SplitIsPlain(s, a, d);
    assert a > 0 && a + 1 < d < |s| - 1;
  }

  lemma ShapeGivesMatch(s: string)
    requires EmailShape(s)
    ensures RegexMatches(s)
  {
    var a :| 0 < a < |s| && s[a] == '@' && (forall k | 0 <= k < |s| && k != a :: s[k] != '@')
      && exists d | a + 1 < d < |s| - 1 :: s[d] == '.';
    var d :| a + 1 < d < |s| - 1 && s[d] == '.';
    PlainSlice(s, 0, a);
    PlainSlice(s, a + 1, d);
    PlainSlice(s, d + 1, |s|);
    assert s[..a] == s[0..a] && s[d + 1..] == s[d + 1..|s|];
  }

  /** A non-empty slice of characters that are neither `@` nor white space is a plain run. */
  lemma PlainSlice(s: string, lo: int, hi: int)
    requires 0 <= lo < hi <= |s|
    requires forall k | lo <= k < hi :: s[k] != '@' && !IsJsWhitespace(s[k])
    ensures PlainRun(s[lo..hi])
  {
    forall k | 0 <= k < hi - lo ensures s[lo..hi][k] != '@' && !IsJsWhitespace(s[lo..hi][k]) {
      assert s[lo..hi][k] == s[lo + k];
    }
  }

  lemma RegexMatchesIffShape(s: string)
    ensures RegexMatches(s) <==> EmailShape(s)
  {
    if RegexMatches(s) { MatchGivesShape(s); }
    if EmailShape(s) { ShapeGivesMatch(s); }
  }

  /** `validateEmail`: the pattern is checked before the length. */
  function ValidateEmail(s: string): (r: Option<string>)
    ensures r.None? <==> RegexMatches(s) && |s| <= 255
    ensures !RegexMatches(s) ==> r == Some(EmailInvalid)
    ensures RegexMatches(s) && |s| > 255 ==> r == Some(EmailTooLong)
  {
    RegexMatchesIffShape(s);
    if !EmailShape(s) then Some(EmailInvalid)
    else if |s| > 255 then Some(EmailTooLong)
    else None
  }
}
