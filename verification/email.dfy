/** The e-mail check shared by every form (main.js `validateEmail`): a match of
    the regular expression `^[^\s@]+@[^\s@]+\.[^\s@]+$`. */
module Email {
  import opened Text

  /** A character the class `[^\s@]` accepts. */
  predicate IsPlain(c: char) {
    !IsWs(c) && c != '@'
  }

  /** A non-empty run of `[^\s@]`, i.e. the string matches `[^\s@]+`. */
  predicate PlainRun(s: string) {
    |s| > 0 && forall k | 0 <= k < |s| :: IsPlain(s[k])
  }

  /** The regular expression, read as a concatenation: a plain run, '@' at
      index `at`, a plain run, '.' at index `dot`, a plain run, with nothing
      before or after. The `.` may be any dot after the '@' that has plain
      characters on both sides (the pattern backtracks to find one). */
  predicate ValidateEmail(s: string) {
    exists at, dot | 0 < at < |s| && 0 < dot < |s| - 1 && at + 1 < dot ::
      && s[at] == '@' && s[dot] == '.'
      && PlainRun(s[..at]) && PlainRun(s[at + 1..dot]) && PlainRun(s[dot + 1..])
  }

  /** The same set of addresses described by its parts: no whitespace, exactly
      one '@', not in first position, and after it a '.' that is neither the
      first nor the last character of the domain. */
  predicate WellFormedAddress(s: string) {
    && (forall i | 0 <= i < |s| :: !IsWs(s[i]))
    && exists at | 0 < at < |s| ::
         && s[at] == '@'
         && (forall m | 0 <= m < |s| && s[m] == '@' :: m == at)
         && exists dot | at + 1 < dot < |s| - 1 :: s[dot] == '.'
  }

  /** The regular expression accepts exactly the well-formed addresses. */
  lemma ValidateEmailCharacterized(s: string)
    ensures ValidateEmail(s) <==> WellFormedAddress(s)
  {
    if ValidateEmail(s) {
      MatchIsWellFormed(s);
    }
    if WellFormedAddress(s) {
      WellFormedMatches(s);
    }
  }

  lemma MatchIsWellFormed(s: string)
    requires ValidateEmail(s)
    ensures WellFormedAddress(s)
  {
    var at, dot :| 0 < at < |s| && 0 < dot < |s| - 1 && at + 1 < dot
      && s[at] == '@' && s[dot] == '.'
      && PlainRun(s[..at]) && PlainRun(s[at + 1..dot]) && PlainRun(s[dot + 1..]);
    forall m | 0 <= m < |s| && m != at && m != dot ensures IsPlain(s[m]) {
      if m < at {
        assert s[..at][m] == s[m];
      } else if m < dot {
        assert s[at + 1..dot][m - at - 1] == s[m];
      } else {
        assert s[dot + 1..][m - dot - 1] == s[m];
      }
    }
    assert forall i | 0 <= i < |s| :: !IsWs(s[i]) by {
      forall i | 0 <= i < |s| ensures !IsWs(s[i]) {
        if i != at && i != dot { assert IsPlain(s[i]); }
      }
    }
    assert s[dot] == '.';
  }

  lemma WellFormedMatches(s: string)
    requires WellFormedAddress(s)
    ensures ValidateEmail(s)
  {
    var at :| 0 < at < |s| && s[at] == '@'
      && (forall m | 0 <= m < |s| && s[m] == '@' :: m == at)
      && exists dot | at + 1 < dot < |s| - 1 :: s[dot] == '.';
    var dot :| at + 1 < dot < |s| - 1 && s[dot] == '.';
    assert forall m | 0 <= m < |s| && m != at :: IsPlain(s[m]);
    assert PlainRun(s[..at]) by {
      forall k | 0 <= k < at ensures IsPlain(s[..at][k]) { assert s[..at][k] == s[k]; }
    }
    var domain, tld := s[at + 1..dot], s[dot + 1..];
    forall k | 0 <= k < |domain| ensures IsPlain(domain[k]) {
      assert domain[k] == s[at + 1 + k];
    }
    forall k | 0 <= k < |tld| ensures IsPlain(tld[k]) {
      assert tld[k] == s[dot + 1 + k];
    }
  }

  /** The shortest accepted address has five characters, so in particular the
      empty string is rejected. */
  lemma ValidEmailLength(s: string)
    requires ValidateEmail(s)
    ensures |s| >= 5
  {
  }
}
