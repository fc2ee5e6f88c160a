/** String primitives as the ECMAScript built-ins behave on them: the `\s`
    character class, `String.prototype.trim`, and `String.prototype.split`
    with a pattern of the form `/[sep]+/` (one or more separators in a row
    count as a single delimiter). Also the decimal rendering of a
    non-negative integer, as `n + ' min'` produces it. */
module Text {

  /** ECMAScript WhiteSpace and LineTerminator code points: the set matched by
      `\s` and removed by `trim()`. */
  predicate IsWs(c: char) {
    || ('\t' <= c <= '\r')                // tab, line feed, vertical tab, form feed, carriage return
    || c == ' ' || c == '\U{A0}' || c == '\U{1680}'
    || ('\U{2000}' <= c <= '\U{200A}')
    || c == '\U{2028}' || c == '\U{2029}' || c == '\U{202F}' || c == '\U{205F}'
    || c == '\U{3000}' || c == '\U{FEFF}'
  }

  /** Every character of `s` is whitespace (vacuously true of ""). */
  predicate AllWs(s: string) {
    forall i | 0 <= i < |s| :: IsWs(s[i])
  }

  /** Length of the longest prefix of `s` whose characters all have `p(c) == want`. */
  function Span(s: string, p: char -> bool, want: bool): (n: nat)
    ensures n <= |s|
    ensures forall k | 0 <= k < n :: p(s[k]) == want
    ensures n < |s| ==> p(s[n]) != want
  {
    if |s| == 0 || p(s[0]) != want then 0 else 1 + Span(s[1..], p, want)
  }

  /** Number of whitespace characters at the end of `s`. */
  function TrailingWs(s: string): (n: nat)
    ensures n <= |s|
    ensures forall k | |s| - n <= k < |s| :: IsWs(s[k])
    ensures n < |s| ==> !IsWs(s[|s| - 1 - n])
  {
    if |s| == 0 || !IsWs(s[|s| - 1]) then 0 else 1 + TrailingWs(s[..|s| - 1])
  }

  /** `String.prototype.trim`: the longest slice of `s` that neither starts
      nor ends with whitespace, surrounded in `s` by whitespace only. */
  function Trim(s: string): (r: string)
    ensures |r| <= |s|
    ensures |r| == 0 <==> AllWs(s)
    ensures |r| > 0 ==> !IsWs(r[0]) && !IsWs(r[|r| - 1])
    ensures exists a | 0 <= a <= |s| - |r| ::
              r == s[a..a + |r|] && AllWs(s[..a]) && AllWs(s[a + |r|..])
  {
    var a := Span(s, IsWs, true);
    if a == |s| then
      assert s[..a] == s;
      assert s[a..a] == "";
      ""
    else
      var b := |s| - TrailingWs(s);
      TrimBounds(s, a, b);
      s[a..b]
  }

  /** The facts `Trim` promises, for the slice between the leading and the
      trailing whitespace of a string that is not all whitespace. */
  lemma TrimBounds(s: string, a: nat, b: nat)
    requires a < |s| && !IsWs(s[a]) && forall k | 0 <= k < a :: IsWs(s[k])
    requires b <= |s| && (b > 0 ==> !IsWs(s[b - 1])) && forall k | b <= k < |s| :: IsWs(s[k])
    ensures a < b
    ensures !IsWs(s[a..b][0]) && !IsWs(s[a..b][b - a - 1]) && !AllWs(s)
    ensures AllWs(s[..a]) && AllWs(s[b..])
  {
    var u := s[b..];
    forall k | 0 <= k < |u| ensures IsWs(u[k]) {
      assert u[k] == s[b + k];
    }
  }

  /** Where `Trim` cuts: the trimmed text is `s[a..b]`, with only whitespace
      before `a` and from `b` on. */
  lemma TrimSlice(s: string) returns (a: nat, b: nat)
    ensures a <= b <= |s| && Trim(s) == s[a..b]
    ensures AllWs(s[..a]) && AllWs(s[b..])
  {
    a := Span(s, IsWs, true);
    if a == |s| {
      b := a;
      assert s[..a] == s;
    } else {
      b := |s| - TrailingWs(s);
      TrimBounds(s, a, b);
    }
  }

  /** `s.split(/[sep]+/)`: the pieces between maximal runs of separators.
      A leading or trailing run yields an empty first or last piece, and a
      string with no separator (the empty string included) is one piece. */
  function Split(s: string, sep: char -> bool): (pieces: seq<string>)
    ensures |pieces| >= 1
    decreases |s|
  {
    var i := Span(s, sep, false);
    if i == |s| then [s]
    else
      var j := i + Span(s[i..], sep, true);
      [s[..i]] + Split(s[j..], sep)
  }

  /** Number of maximal runs of non-separator characters in `s`: a run starts
      at each non-separator character that is the first one (when `afterSep`)
      or follows a separator. This is the reference notion of "word". */
  function RunCount(s: string, sep: char -> bool, afterSep: bool): nat {
    if |s| == 0 then 0
    else (if afterSep && !sep(s[0]) then 1 else 0) + RunCount(s[1..], sep, sep(s[0]))
  }

  /** Skipping a leading block of separators leaves the count of the rest,
      started as if after a separator. */
  lemma {:induction false} RunCountSkipSeps(s: string, sep: char -> bool, afterSep: bool, k: nat)
    requires 0 < k <= |s|
    requires forall i | 0 <= i < k :: sep(s[i])
    ensures RunCount(s, sep, afterSep) == RunCount(s[k..], sep, true)
    decreases k
  {
    if k > 1 {
      RunCountSkipSeps(s[1..], sep, true, k - 1);
      assert s[1..][k - 1..] == s[k..];
    }
  }

  /** Skipping a leading block of non-separators counts one run if it starts
      one, then continues as if after a non-separator. */
  lemma {:induction false} RunCountSkipRun(s: string, sep: char -> bool, afterSep: bool, k: nat)
    requires 0 < k <= |s|
    requires forall i | 0 <= i < k :: !sep(s[i])
    ensures RunCount(s, sep, afterSep) == (if afterSep then 1 else 0) + RunCount(s[k..], sep, false)
    decreases k
  {
    if k > 1 {
      RunCountSkipRun(s[1..], sep, false, k - 1);
      assert s[1..][k - 1..] == s[k..];
    }
  }

  /** A string of separators only has no runs. */
  lemma RunCountAllSeps(s: string, sep: char -> bool, afterSep: bool)
    requires forall i | 0 <= i < |s| :: sep(s[i])
    ensures RunCount(s, sep, afterSep) == 0
  {
    if |s| > 0 {
      RunCountSkipSeps(s, sep, afterSep, |s|);
    }
  }

  /** Separators at the end of `s` do not change its run count. */
  lemma {:induction false} RunCountDropTrailingSeps(s: string, sep: char -> bool, afterSep: bool, k: nat)
    requires k <= |s|
    requires forall i | k <= i < |s| :: sep(s[i])
    ensures RunCount(s, sep, afterSep) == RunCount(s[..k], sep, afterSep)
    decreases k
  {
    if k == 0 {
      RunCountAllSeps(s, sep, afterSep);
    } else {
      RunCountDropTrailingSeps(s[1..], sep, sep(s[0]), k - 1);
      assert s[1..][..k - 1] == s[..k][1..];
    }
  }

  /** There are never more runs than characters. */
  lemma {:induction false} RunCountBound(s: string, sep: char -> bool, afterSep: bool)
    ensures RunCount(s, sep, afterSep) <= |s|
    decreases |s|
  {
    if |s| > 0 {
      RunCountBound(s[1..], sep, sep(s[0]));
    }
  }

  /** Splitting a non-empty string that neither starts nor ends with a
      separator yields exactly one piece per maximal run of non-separators. */
  lemma {:induction false} SplitCountsRuns(s: string, sep: char -> bool)
    requires |s| > 0 && !sep(s[0]) && !sep(s[|s| - 1])
    ensures |Split(s, sep)| == RunCount(s, sep, true)
    decreases |s|
  {
    var i := Span(s, sep, false);
    if i < |s| {
      var j := SplitStep(s, sep);
      assert j < |s|;
      RunCountStep(s, sep, i, j);
      SplitCountsRuns(s[j..], sep);
    } else {
      assert Split(s, sep) == [s];
      RunCountSkipRun(s, sep, true, i);
    }
  }

  /** A run of non-separators, then a run of separators: one run, and the
      count of the rest. */
  lemma RunCountStep(s: string, sep: char -> bool, i: nat, j: nat)
    requires 0 < i < j <= |s|
    requires forall k | 0 <= k < i :: !sep(s[k])
    requires forall k | i <= k < j :: sep(s[k])
    ensures RunCount(s, sep, true) == 1 + RunCount(s[j..], sep, true)
  {
    RunCountSkipRun(s, sep, true, i);
    RunCountSkipSepsAt(s, sep, i, j);
  }

  /** The separators between `i` and `j` start a fresh run count. */
  lemma RunCountSkipSepsAt(s: string, sep: char -> bool, i: nat, j: nat)
    requires i < j <= |s|
    requires forall k | i <= k < j :: sep(s[k])
    ensures RunCount(s[i..], sep, false) == RunCount(s[j..], sep, true)
  {
    var t := s[i..];
    forall k | 0 <= k < j - i ensures sep(t[k]) {
      assert t[k] == s[i + k];
    }
    RunCountSkipSeps(t, sep, false, j - i);
    assert t[j - i..] == s[j..];
  }

  /** `s` contains no separator. */
  predicate NoSep(s: string, sep: char -> bool) {
    forall k | 0 <= k < |s| :: !sep(s[k])
  }

  /** No piece of a split contains a separator. */
  lemma {:induction false} SplitPiecesHaveNoSep(s: string, sep: char -> bool)
    ensures forall n | 0 <= n < |Split(s, sep)| :: NoSep(Split(s, sep)[n], sep)
    decreases |s|
  {
    var i := Span(s, sep, false);
    if i == |s| {
      assert Split(s, sep) == [s];
    } else {
      var j := SplitStep(s, sep);
      var first := s[..i];
      var rest := Split(s[j..], sep);
      SplitPiecesHaveNoSep(s[j..], sep);
      assert NoSep(first, sep) by {
        forall k | 0 <= k < i ensures !sep(first[k]) { assert first[k] == s[k]; }
      }
      PrependNoSep(first, rest, sep);
    }
  }

  lemma PrependNoSep(first: string, rest: seq<string>, sep: char -> bool)
    requires NoSep(first, sep)
    requires forall n | 0 <= n < |rest| :: NoSep(rest[n], sep)
    ensures forall n | 0 <= n < |[first] + rest| :: NoSep(([first] + rest)[n], sep)
  {
    var pieces := [first] + rest;
    forall n | 0 <= n < |pieces| ensures NoSep(pieces[n], sep) {
      if n > 0 { assert pieces[n] == rest[n - 1]; }
    }
  }

  /** One step of `Split` on a string that contains a separator: the first
      piece is followed by the pieces of the suffix after the first run of
      separators. */
  lemma SplitStep(s: string, sep: char -> bool) returns (j: nat)
    requires Span(s, sep, false) < |s|
    ensures Span(s, sep, false) < j <= |s|
    ensures forall k | Span(s, sep, false) <= k < j :: sep(s[k])
    ensures j < |s| ==> !sep(s[j])
    ensures Split(s, sep) == [s[..Span(s, sep, false)]] + Split(s[j..], sep)
  {
    var i := Span(s, sep, false);
    j := SpanFrom(s, sep, true, i);
    SplitUnfold(s, sep, i, j);
  }

  lemma SplitUnfold(s: string, sep: char -> bool, i: nat, j: nat)
    requires i == Span(s, sep, false) < |s|
    requires j == i + Span(s[i..], sep, true)
    ensures Split(s, sep) == [s[..i]] + Split(s[j..], sep)
  {
  }

  /** A string without a separator is its own single piece. */
  lemma SplitWhole(s: string, sep: char -> bool)
    requires Span(s, sep, false) == |s|
    ensures Split(s, sep) == [s]
  {
  }

  /** `Span` of the suffix starting at `i`, stated in indices of `s`. */
  lemma SpanFrom(s: string, p: char -> bool, want: bool, i: nat) returns (j: nat)
    requires i <= |s|
    ensures j == i + Span(s[i..], p, want)
    ensures i <= j <= |s|
    ensures i < |s| && p(s[i]) == want ==> i < j
    ensures forall k | i <= k < j :: p(s[k]) == want
    ensures j < |s| ==> p(s[j]) != want
  {
    var t := s[i..];
    j := i + Span(t, p, want);
    assert i < |s| ==> s[i] == t[0];
    assert j < |s| ==> s[j] == t[j - i];
    forall k | i <= k < j ensures p(s[k]) == want {
      assert s[k] == t[k - i];
    }
  }

  /** `s` with every separator removed. */
  function DropSeps(s: string, sep: char -> bool): string {
    if |s| == 0 then "" else (if sep(s[0]) then "" else [s[0]]) + DropSeps(s[1..], sep)
  }

  /** The pieces written one after another. */
  function Concat(pieces: seq<string>): string {
    if |pieces| == 0 then "" else pieces[0] + Concat(pieces[1..])
  }

  /** A leading block of non-separators survives separator removal intact. */
  lemma {:induction false} DropSepsSkipPiece(s: string, sep: char -> bool, k: nat)
    requires k <= |s|
    requires forall i | 0 <= i < k :: !sep(s[i])
    ensures DropSeps(s, sep) == s[..k] + DropSeps(s[k..], sep)
    decreases k
  {
    if k > 0 {
      DropSepsSkipPiece(s[1..], sep, k - 1);
      assert s[1..][k - 1..] == s[k..];
      assert s[..k] == [s[0]] + s[1..][..k - 1];
    }
  }

  /** A leading block of separators disappears. */
  lemma {:induction false} DropSepsSkipSeps(s: string, sep: char -> bool, k: nat)
    requires k <= |s|
    requires forall i | 0 <= i < k :: sep(s[i])
    ensures DropSeps(s, sep) == DropSeps(s[k..], sep)
    decreases k
  {
    if k > 0 {
      DropSepsSkipSeps(s[1..], sep, k - 1);
      assert s[1..][k - 1..] == s[k..];
    }
  }

  lemma ConcatCons(piece: string, pieces: seq<string>)
    ensures Concat([piece] + pieces) == piece + Concat(pieces)
  {
    assert ([piece] + pieces)[1..] == pieces;
  }

  /** Splitting loses exactly the separators: the pieces, written one after
      another, are the string without its separators. */
  lemma {:induction false} SplitKeepsContent(s: string, sep: char -> bool)
    ensures Concat(Split(s, sep)) == DropSeps(s, sep)
    decreases |s|
  {
    var i := Span(s, sep, false);
    if i == |s| {
      assert Concat(Split(s, sep)) == s by {
        assert Split(s, sep) == [s];
        ConcatCons(s, []);
      }
      assert DropSeps(s, sep) == s by {
        DropSepsSkipPiece(s, sep, i);
        assert s[..i] == s && s[i..] == "";
      }
    } else {
      var j := SplitStep(s, sep);
      var rest := s[j..];
      assert Concat(Split(s, sep)) == s[..i] + Concat(Split(rest, sep)) by {
        ConcatCons(s[..i], Split(rest, sep));
      }
      SplitKeepsContent(rest, sep);
      DropSepsStep(s, sep, i, j);
    }
  }

  /** Removing the separators from a piece, the run of separators after it
      and the rest keeps the piece and the rest's non-separators. */
  lemma DropSepsStep(s: string, sep: char -> bool, i: nat, j: nat)
    requires i <= j <= |s|
    requires forall k | 0 <= k < i :: !sep(s[k])
    requires forall k | i <= k < j :: sep(s[k])
    ensures DropSeps(s, sep) == s[..i] + DropSeps(s[j..], sep)
  {
    DropSepsSkipPiece(s, sep, i);
    DropSepsSkipSepsAt(s, sep, i, j);
  }

  /** The separators between `i` and `j` disappear. */
  lemma DropSepsSkipSepsAt(s: string, sep: char -> bool, i: nat, j: nat)
    requires i <= j <= |s|
    requires forall k | i <= k < j :: sep(s[k])
    ensures DropSeps(s[i..], sep) == DropSeps(s[j..], sep)
  {
    var t := s[i..];
    forall k | 0 <= k < j - i ensures sep(t[k]) {
      assert t[k] == s[i + k];
    }
    DropSepsSkipSeps(t, sep, j - i);
    assert t[j - i..] == s[j..];
  }

  /** Trimming removes whitespace only, so the number of words is unchanged. */
  lemma TrimKeepsRuns(s: string)
    ensures RunCount(Trim(s), IsWs, true) == RunCount(s, IsWs, true)
  {
    var a, b := TrimSlice(s);
    RunCountInsideWs(s, Trim(s), a, b);
  }

  /** Whitespace before `a` and from `b` on does not change the run count. */
  lemma RunCountInsideWs(s: string, r: string, a: nat, b: nat)
    requires a <= b <= |s| && r == s[a..b]
    requires AllWs(s[..a]) && AllWs(s[b..])
    ensures RunCount(r, IsWs, true) == RunCount(s, IsWs, true)
  {
    var t := s[a..];
    assert t[..b - a] == r;
    assert t[b - a..] == s[b..];
    RunCountLeadingWs(s, a);
    RunCountTrailingWs(t, b - a);
  }

  lemma RunCountLeadingWs(s: string, a: nat)
    requires a <= |s| && AllWs(s[..a])
    ensures RunCount(s[a..], IsWs, true) == RunCount(s, IsWs, true)
  {
    if a > 0 {
      forall i | 0 <= i < a ensures IsWs(s[i]) { assert s[i] == s[..a][i]; }
      RunCountSkipSeps(s, IsWs, true, a);
    }
  }

  lemma RunCountTrailingWs(t: string, k: nat)
    requires k <= |t| && AllWs(t[k..])
    ensures RunCount(t[..k], IsWs, true) == RunCount(t, IsWs, true)
  {
    forall i | k <= i < |t| ensures IsWs(t[i]) { assert t[i] == t[k..][i - k]; }
    RunCountDropTrailingSeps(t, IsWs, true, k);
  }

  // ---------------------------------------------------------------------
  // UTF-16 length

  /** JavaScript's `length`: the number of UTF-16 code units, where a
      character above U+FFFF takes a surrogate pair. */
  function Utf16Length(s: string): (n: nat)
    ensures |s| <= n <= 2 * |s|
  {
    if |s| == 0 then 0 else (if s[0] as int > 0xFFFF then 2 else 1) + Utf16Length(s[1..])
  }

  /** A slice is never longer in code units than the whole string. */
  lemma {:induction false} Utf16LengthSlice(s: string, a: nat, b: nat)
    requires a <= b <= |s|
    ensures Utf16Length(s[a..b]) <= Utf16Length(s)
    decreases a
  {
    if a == 0 {
      Utf16LengthPrefix(s, b);
      assert s[a..b] == s[..b];
    } else {
      Utf16LengthSlice(s[1..], a - 1, b - 1);
      assert s[1..][a - 1..b - 1] == s[a..b];
    }
  }

  lemma {:induction false} Utf16LengthPrefix(s: string, b: nat)
    requires b <= |s|
    ensures Utf16Length(s[..b]) <= Utf16Length(s)
    decreases b
  {
    if b > 0 {
      Utf16LengthPrefix(s[1..], b - 1);
      assert s[1..][..b - 1] == s[..b][1..];
    }
  }

  /** Trimming never lengthens a string in code units. */
  lemma Utf16LengthTrim(s: string)
    ensures Utf16Length(Trim(s)) <= Utf16Length(s)
  {
    var a, b := TrimSlice(s);
    Utf16LengthSlice(s, a, b);
  }

  // ---------------------------------------------------------------------
  // Decimal rendering of non-negative integers

  predicate IsDigit(c: char) {
    '0' <= c <= '9'
  }

  function DigitChar(d: nat): (c: char)
    requires d < 10
    ensures IsDigit(c)
  {
    "0123456789"[d]
  }

  function DigitValue(c: char): nat
    requires IsDigit(c)
  {
    c as int - '0' as int
  }

  /** The decimal text of `n`, as JavaScript's number-to-string conversion
      writes a non-negative integer: digits only, no leading zero. */
  function NatToString(n: nat): (r: string)
    ensures |r| >= 1
    ensures forall i | 0 <= i < |r| :: IsDigit(r[i])
    ensures r[0] == '0' ==> n == 0 && |r| == 1
  {
    if n < 10 then [DigitChar(n)] else NatToString(n / 10) + [DigitChar(n % 10)]
  }

  /** Reads a string of decimal digits back as a number. */
  function ParseNat(s: string): nat
    requires forall i | 0 <= i < |s| :: IsDigit(s[i])
  {
    if |s| == 0 then 0 else 10 * ParseNat(s[..|s| - 1]) + DigitValue(s[|s| - 1])
  }

  lemma DigitRoundTrip(d: nat)
    requires d < 10
    ensures DigitValue(DigitChar(d)) == d
  {
  }

  /** Reading back the decimal text of `n` gives `n`. */
  lemma {:induction false} ParseNatToString(n: nat)
    ensures ParseNat(NatToString(n)) == n
    decreases n
  {
    var r := NatToString(n);
    if n < 10 {
      DigitRoundTrip(n);
    } else {
      ParseNatToString(n / 10);
      DigitRoundTrip(n % 10);
      assert r[..|r| - 1] == NatToString(n / 10);
    }
  }
}
