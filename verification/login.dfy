/** The login screen's `handleLogin` check chain: the email pattern, then
    the password's presence, and only then the sign-in call. */
module Login {
  import opened Text

  /** A non-empty run of characters that are neither whitespace nor `@`
      (the regular-expression class `[^\s@]+`). */
  predicate Plain(s: string) {
    |s| > 0 && forall k :: 0 <= k < |s| ==> !IsSpace(s[k]) && s[k] != '@'
  }

  /** The email pattern `^[^\s@]+@[^\s@]+\.[^\s@]+$`, read directly: an `@`
      at `i` and a `.` at `j` cut the text into three plain runs. */
  predicate EmailMatches(e: string) {
    exists i, j :: 0 <= i < j < |e| && e[i] == '@' && e[j] == '.'
      && Plain(e[..i]) && Plain(e[i + 1..j]) && Plain(e[j + 1..])
  }

  /** How often `c` occurs in `s`. */
  function Count(s: string, c: char): (n: nat)
    ensures n <= |s|
  {
    if |s| == 0 then 0 else Count(s[..|s| - 1], c) + (if s[|s| - 1] == c then 1 else 0)
  }

  /** The domain part has a dot that is neither its first nor its last character. */
  predicate HasInnerDot(d: string) {
    exists j :: 0 < j < |d| - 1 && d[j] == '.'
  }

  /** The shape of an accepted address, stated without the pattern:
      no whitespace, exactly one `@`, something before it, and an inner
      dot after it. */
  predicate WellFormedEmail(e: string) {
    NoSpace(e) && Count(e, '@') == 1
    && exists i :: 0 < i < |e| && e[i] == '@' && HasInnerDot(e[i + 1..])
  }

  lemma {:induction false} CountConcat(a: string, b: string, c: char)
    ensures Count(a + b, c) == Count(a, c) + Count(b, c)
    decreases |b|
  {
    if |b| == 0 {
      assert a + b == a;
    } else {
      assert (a + b)[..|a + b| - 1] == a + b[..|b| - 1];
      CountConcat(a, b[..|b| - 1], c);
    }
  }

  lemma {:induction false} CountZeroLacks(s: string, c: char)
    ensures Count(s, c) == 0 <==> forall k :: 0 <= k < |s| ==> s[k] != c
  {
    if |s| > 0 {
      CountZeroLacks(s[..|s| - 1], c);
      assert forall k :: 0 <= k < |s| - 1 ==> s[..|s| - 1][k] == s[k];
    }
  }

  /** Splitting at an occurrence of `c`. */
  lemma CountAround(s: string, i: int, c: char)
    requires 0 <= i < |s| && s[i] == c
    ensures Count(s, c) == Count(s[..i], c) + 1 + Count(s[i + 1..], c)
  {
    assert s == s[..i] + [c] + s[i + 1..];
    CountConcat(s[..i] + [c], s[i + 1..], c);
    CountConcat(s[..i], [c], c);
    assert [c][..0] == [];
  }

  lemma MatchedHasNoSpace(e: string, i: int, j: int)
    requires 0 <= i < j < |e| && e[i] == '@' && e[j] == '.'
    requires Plain(e[..i]) && Plain(e[i + 1..j]) && Plain(e[j + 1..])
    ensures NoSpace(e)
  {
    forall k | 0 <= k < |e| ensures !IsSpace(e[k]) {
      if k < i { assert e[..i][k] == e[k]; }
      else if i < k < j { assert e[i + 1..j][k - i - 1] == e[k]; }
      else if j < k { assert e[j + 1..][k - j - 1] == e[k]; }
    }
  }

  lemma MatchesIsWellFormed(e: string)
    requires EmailMatches(e)
    ensures WellFormedEmail(e)
  {
    var i, j :| 0 <= i < j < |e| && e[i] == '@' && e[j] == '.'
      && Plain(e[..i]) && Plain(e[i + 1..j]) && Plain(e[j + 1..]);
    MatchedHasNoSpace(e, i, j);
    MatchedDomain(e, i, j);
    CountAround(e, i, '@');
    CountZeroLacks(e[..i], '@');
  }

  lemma MatchedDomain(e: string, i: int, j: int)
    requires 0 <= i < j < |e| && e[i] == '@' && e[j] == '.'
    requires Plain(e[i + 1..j]) && Plain(e[j + 1..])
    ensures Count(e[i + 1..], '@') == 0 && HasInnerDot(e[i + 1..])
  {
    var d := e[i + 1..];
    forall k | 0 <= k < |d| ensures d[k] != '@' {
      if k < j - i - 1 { assert d[k] == e[i + 1..j][k]; }
      else if k > j - i - 1 { assert d[k] == e[j + 1..][k - (j - i)]; }
      else { assert d[k] == e[j]; }
    }
    CountZeroLacks(d, '@');
    assert d[j - i - 1] == '.';
  }

  lemma WellFormedMatches(e: string)
    requires WellFormedEmail(e)
    ensures EmailMatches(e)
  {
    var i :| 0 < i < |e| && e[i] == '@' && HasInnerDot(e[i + 1..]);
    var d := e[i + 1..];
    var m :| 0 < m < |d| - 1 && d[m] == '.';
    var j := i + 1 + m;
    CountAround(e, i, '@');
    CountZeroLacks(e[..i], '@');
    CountZeroLacks(d, '@');
    forall k | 0 <= k < |e| && k != i ensures e[k] != '@' {
      if k < i { assert e[..i][k] == e[k]; }
      else { assert d[k - i - 1] == e[k]; }
    }
    assert e[j] == '.';
    assert Plain(e[..i]);
    assert Plain(e[i + 1..j]);
    assert Plain(e[j + 1..]);
  }

  /** The pattern accepts exactly the well-formed addresses. */
  lemma EmailPatternMeansWellFormed(e: string)
    ensures EmailMatches(e) <==> WellFormedEmail(e)
  {
    if EmailMatches(e) { MatchesIsWellFormed(e); }
    if WellFormedEmail(e) { WellFormedMatches(e); }
  }

  const InvalidEmailMessage := "Vul een geldig email adres in"
  const MissingPasswordMessage := "Vul je wachtwoord in"

  /** What `handleLogin` does: show an alert, or call `signIn`. */
  datatype LoginOutcome = LoginAlert(message: string) | SignIn(email: string, password: string)

  /** The email check comes first, so a bad address hides a missing
      password; `signIn` receives the fields unchanged. */
  function HandleLogin(email: string, password: string): (r: LoginOutcome)
    ensures r.SignIn? <==> WellFormedEmail(email) && password != []
    ensures !WellFormedEmail(email) ==> r == LoginAlert(InvalidEmailMessage)
    ensures WellFormedEmail(email) && password == [] ==> r == LoginAlert(MissingPasswordMessage)
    ensures r.SignIn? ==> r == SignIn(email, password)
  {
    EmailPatternMeansWellFormed(email);
    if email == [] || !EmailMatches(email) then LoginAlert(InvalidEmailMessage)
    else if password == [] then LoginAlert(MissingPasswordMessage)
    else SignIn(email, password)
  }
}
