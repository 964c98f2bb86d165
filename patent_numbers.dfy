/**
 * Redaction of patent numbers (`replace_patent_numbers`): every leftmost,
 * non-overlapping match of the alternation of three number patterns is
 * replaced by the sentinel `_PATENT_NO_`, scanning on after each match.
 *
 *   US application  \d{2}/\d{3}(,|\s)\d{3}
 *   US grant        \d(,|\s)\d{3}(,|\s)\d{3}
 *   PCT application PCT/[A-Z]{2}\d{2,4}/\d{5,6}
 *
 * None of the patterns has an anchor or a look-behind, so whether a match
 * starts at some position depends only on the text from there on: the
 * matcher below looks at a suffix of the text.
 */
module PatentNumbers {
  import opened Wrappers
  import Strings

  const Sentinel: string := "_PATENT_NO_"

  /** `\d`, over the ASCII digits. */
  predicate IsDigit(c: char) { '0' <= c <= '9' }

  /**
   * `\s` over ASCII: the characters for which `str.isspace()` holds, that is
   * tab, newline, vertical tab, form feed, carriage return, the four
   * separators 28..31 and space.
   */
  predicate IsSpace(c: char) {
    9 <= c as int <= 13 || 28 <= c as int <= 31 || c == ' '
  }

  /** `(,|\s)` */
  predicate IsSeparator(c: char) { c == ',' || IsSpace(c) }

  /** Every character of `s` in `from..to` is a digit. */
  predicate AllDigits(s: string, from: nat, to: nat)
    requires from <= to <= |s|
  {
    forall k :: from <= k < to ==> IsDigit(s[k])
  }

  /** `s` starts with a US application number; it is 10 characters long. */
  predicate IsApplication(s: string) {
    |s| >= 10 && AllDigits(s, 0, 2) && s[2] == '/' && AllDigits(s, 3, 6) && IsSeparator(s[6]) && AllDigits(s, 7, 10)
  }

  /** `s` starts with a US grant number; it is 9 characters long. */
  predicate IsGrant(s: string) {
    |s| >= 9 && IsDigit(s[0]) && IsSeparator(s[1]) && AllDigits(s, 2, 5) && IsSeparator(s[5]) && AllDigits(s, 6, 9)
  }

  /** The number of consecutive digits in `s` from index `from` on. */
  function DigitRun(s: string, from: nat): (n: nat)
    requires from <= |s|
    ensures from + n <= |s| && AllDigits(s, from, from + n)
    ensures from + n < |s| ==> !IsDigit(s[from + n])
    decreases |s| - from
  {
    if from < |s| && IsDigit(s[from]) then 1 + DigitRun(s, from + 1) else 0
  }

  /**
   * The length of the PCT application number `s` starts with, if any.
   * `\d{2,4}` must be followed by `/`, which is not a digit, so it takes the
   * whole run of digits, which must have 2 to 4 of them; `\d{5,6}` is
   * greedy and takes 6 digits when there are, else 5.
   */
  function PctLength(s: string): (r: Option<nat>)
  {
    if |s| >= 6 && s[..4] == "PCT/" && Strings.IsUpper(s[4]) && Strings.IsUpper(s[5]) then
      var m := DigitRun(s, 6);
      if 2 <= m <= 4 && 6 + m < |s| && s[6 + m] == '/' then
        var d := DigitRun(s, 7 + m);
        if d >= 6 then Some(13 + m)
        else if d == 5 then Some(12 + m)
        else None
      else None
    else None
  }

  /**
   * `s` starts with `PCT/`, two capitals, `m` digits, `/` and `d` digits:
   * one way for the PCT pattern to match a prefix of `s`.
   */
  predicate PctShape(s: string, m: nat, d: nat) {
    && |s| >= 7 + m + d
    && s[..4] == "PCT/" && Strings.IsUpper(s[4]) && Strings.IsUpper(s[5])
    && AllDigits(s, 6, 6 + m) && s[6 + m] == '/' && AllDigits(s, 7 + m, 7 + m + d)
  }

  /**
   * How a backtracking regular-expression engine matches the PCT pattern at
   * the start of `s`: the greedy `\d{2,4}` tries 4, 3, then 2 digits, and
   * for each the greedy `\d{5,6}` tries 6, then 5; the first that fits wins.
   */
  function BacktrackPct(s: string): Option<nat> {
    if PctShape(s, 4, 6) then Some(17)
    else if PctShape(s, 4, 5) then Some(16)
    else if PctShape(s, 3, 6) then Some(16)
    else if PctShape(s, 3, 5) then Some(15)
    else if PctShape(s, 2, 6) then Some(15)
    else if PctShape(s, 2, 5) then Some(14)
    else None
  }

  /** The run-based PCT matcher is the backtracking one. */
  lemma PctLengthIsBacktracking(s: string)
    ensures PctLength(s) == BacktrackPct(s)
  {
    if |s| >= 6 && s[..4] == "PCT/" && Strings.IsUpper(s[4]) && Strings.IsUpper(s[5]) {
      var m := DigitRun(s, 6);
      if 2 <= m <= 4 && 6 + m < |s| && s[6 + m] == '/' {
        var d := DigitRun(s, 7 + m);
        if d >= 6 {
          assert PctShape(s, m, 6);
        } else if d == 5 {
          assert PctShape(s, m, 5);
        }
      }
    }
  }

  /**
   * The length of the patent number `s` starts with under the alternation
   * of the three patterns, tried in the order they are written.
   */
  function MatchLength(s: string): (r: Option<nat>)
    ensures r.Some? ==> 9 <= r.value <= |s|
  {
    if IsApplication(s) then Some(10)
    else if IsGrant(s) then Some(9)
    else PctLength(s)
  }

  /** At most one of the three patterns matches at a position, so their order does not matter. */
  lemma AlternativesExclusive(s: string)
    ensures !(IsApplication(s) && IsGrant(s))
    ensures PctLength(s).Some? ==> !IsApplication(s) && !IsGrant(s)
  {
    if PctLength(s).Some? {
      assert s[0] == "PCT/"[0];
    }
  }

  /** `re.sub` of the alternation by the sentinel over `text`. */
  function ReplacePatentNumbers(text: string): string
    decreases |text|
  {
    if text == [] then []
    else
      match MatchLength(text)
      case Some(n) => Sentinel + ReplacePatentNumbers(text[n..])
      case None => [text[0]] + ReplacePatentNumbers(text[1..])
  }

  /** A match at the start of the text becomes the sentinel, and scanning resumes after it. */
  lemma ReplaceMatch(text: string, n: nat)
    requires MatchLength(text) == Some(n)
    ensures ReplacePatentNumbers(text) == Sentinel + ReplacePatentNumbers(text[n..])
  {
  }

  /** No match starts at any position of `prefix` within `prefix + rest`. */
  predicate NoMatchWithin(prefix: string, rest: string) {
    forall k :: 0 <= k < |prefix| ==> MatchLength((prefix + rest)[k..]).None?
  }

  /** Characters at which no match starts are copied unchanged and in order. */
  lemma {:induction false} ReplaceAfterPlainPrefix(prefix: string, rest: string)
    requires NoMatchWithin(prefix, rest)
    ensures ReplacePatentNumbers(prefix + rest) == prefix + ReplacePatentNumbers(rest)
    decreases |prefix|
  {
    if prefix != [] {
      var s := prefix + rest;
      assert s[0..] == s;
      assert s[1..] == prefix[1..] + rest;
      forall k | 0 <= k < |prefix| - 1 ensures MatchLength((prefix[1..] + rest)[k..]).None? {
        assert (prefix[1..] + rest)[k..] == s[k + 1..];
      }
      ReplaceAfterPlainPrefix(prefix[1..], rest);
      assert MatchLength(s).None?;
      calc {
        ReplacePatentNumbers(s);
        [s[0]] + ReplacePatentNumbers(s[1..]);
        [prefix[0]] + (prefix[1..] + ReplacePatentNumbers(rest));
        { assert prefix == [prefix[0]] + prefix[1..]; }
        prefix + ReplacePatentNumbers(rest);
      }
    } else {
      assert prefix + rest == rest;
    }
  }

  /** Text in which no position starts a match is returned unchanged. */
  lemma NoMatchUnchanged(text: string)
    requires forall k :: 0 <= k < |text| ==> MatchLength(text[k..]).None?
    ensures ReplacePatentNumbers(text) == text
  {
    assert text + [] == text;
    ReplaceAfterPlainPrefix(text, []);
  }

  /** No character of the sentinel starts a match, whatever follows it. */
  lemma SentinelStartsNoMatch(rest: string)
    ensures NoMatchWithin(Sentinel, rest)
  {
    var s := Sentinel + rest;
    forall k | 0 <= k < |Sentinel| ensures MatchLength(s[k..]).None? {
      var t := s[k..];
      assert t[0] == Sentinel[k];
    }
  }

  /** Redacting after a sentinel leaves the sentinel alone. */
  lemma ReplaceAfterSentinel(rest: string)
    ensures ReplacePatentNumbers(Sentinel + rest) == Sentinel + ReplacePatentNumbers(rest)
  {
    SentinelStartsNoMatch(rest);
    ReplaceAfterPlainPrefix(Sentinel, rest);
  }

  /** A matched number holds no underscore. */
  lemma MatchHasNoUnderscore(s: string, n: nat)
    requires MatchLength(s) == Some(n)
    ensures forall k :: 0 <= k < n ==> s[k] != '_'
  {
    if !IsApplication(s) && !IsGrant(s) {
      PctLengthIsBacktracking(s);
      forall k | 0 <= k < n ensures s[k] != '_' {
        if k < 4 {
          assert s[k] == s[..4][k];
        }
      }
    }
  }

  /** Whether a match of length `n` starts somewhere depends on those `n` characters only. */
  lemma MatchDependsOnPrefix(s: string, t: string, n: nat)
    requires MatchLength(t) == Some(n)
    requires n <= |s| && s[..n] == t[..n]
    ensures MatchLength(s).Some?
  {
    forall k | 0 <= k < n ensures s[k] == t[k] {
      assert s[k] == s[..n][k];
      assert t[k] == t[..n][k];
    }
    if !IsApplication(t) && !IsGrant(t) {
      PctLengthIsBacktracking(t);
      PctLengthIsBacktracking(s);
      assert s[..4] == t[..4];
    }
  }

  /**
   * A text `t` that agrees with `s` up to index `j`, where `t` ends or holds
   * an underscore, starts with a match only if `s` does.
   */
  lemma MatchNeedsUnchangedPrefix(s: string, t: string, j: nat)
    requires j <= |s| && j <= |t| && t[..j] == s[..j]
    requires j == |t| || t[j] == '_'
    ensures MatchLength(t).Some? ==> MatchLength(s).Some?
  {
    if MatchLength(t).Some? {
      var n := MatchLength(t).value;
      MatchHasNoUnderscore(t, n);
      assert n <= j;
      assert s[..n] == s[..j][..n] == t[..j][..n] == t[..n];
      MatchDependsOnPrefix(s, t, n);
    }
  }

  /** The first position at which a match starts, or the end of the text. */
  lemma {:induction false} FirstMatchStart(text: string) returns (j: nat)
    ensures j <= |text|
    ensures forall k :: 0 <= k < j ==> MatchLength(text[k..]).None?
    ensures j < |text| ==> MatchLength(text[j..]).Some?
    decreases |text|
  {
    if text == [] || MatchLength(text).Some? {
      j := 0;
      assert text[0..] == text;
    } else {
      var i := FirstMatchStart(text[1..]);
      j := i + 1;
      forall k | 0 <= k < j ensures MatchLength(text[k..]).None? {
        if k == 0 {
          assert text[0..] == text;
        } else {
          assert text[k..] == text[1..][k - 1..];
        }
      }
      assert text[j..] == text[1..][i..];
    }
  }

  /**
   * The redacted text agrees with the original up to index `j`, the first
   * position at which a match starts: there the redacted text holds the
   * sentinel, followed by the redaction of what the match leaves. When no
   * match starts anywhere, `j` is the end of both texts.
   */
  lemma UnchangedPrefix(text: string) returns (j: nat)
    ensures j <= |text| && j <= |ReplacePatentNumbers(text)|
    ensures ReplacePatentNumbers(text)[..j] == text[..j]
    ensures j == |text| == |ReplacePatentNumbers(text)| || (j < |ReplacePatentNumbers(text)| && ReplacePatentNumbers(text)[j] == '_')
    ensures forall k :: 0 <= k < j ==> MatchLength(text[k..]).None?
    ensures j < |text| ==> MatchLength(text[j..]).Some?
    ensures j < |text| ==> ReplacePatentNumbers(text)[j..] == Sentinel + ReplacePatentNumbers(text[j..][MatchLength(text[j..]).value..])
  {
    j := FirstMatchStart(text);
    var prefix, rest := text[..j], text[j..];
    assert prefix + rest == text;
    assert NoMatchWithin(prefix, rest);
    ReplaceAfterPlainPrefix(prefix, rest);
    var out := ReplacePatentNumbers(text);
    assert out == prefix + ReplacePatentNumbers(rest);
    assert out[..j] == prefix;
    assert out[j..] == ReplacePatentNumbers(rest);
    if j == |text| {
      assert rest == [];
    }
  }

  /** Redaction is idempotent: its output holds no patent number to redact. */
  lemma {:induction false} ReplaceIdempotent(text: string)
    ensures ReplacePatentNumbers(ReplacePatentNumbers(text)) == ReplacePatentNumbers(text)
    decreases |text|
  {
    if text != [] {
      match MatchLength(text)
      case Some(n) =>
        ReplaceIdempotent(text[n..]);
        ReplaceAfterSentinel(ReplacePatentNumbers(text[n..]));
      case None =>
        ReplaceIdempotent(text[1..]);
        IdempotentAfterPlainChar(text);
    }
  }

  /** A first character at which no match starts keeps redaction idempotent. */
  lemma IdempotentAfterPlainChar(text: string)
    requires text != [] && MatchLength(text).None?
    requires ReplacePatentNumbers(ReplacePatentNumbers(text[1..])) == ReplacePatentNumbers(text[1..])
    ensures ReplacePatentNumbers(ReplacePatentNumbers(text)) == ReplacePatentNumbers(text)
  {
    var tail := ReplacePatentNumbers(text[1..]);
    var u := [text[0]] + tail;
    assert ReplacePatentNumbers(text) == u;
    StillNoMatch(text);
    assert u[0] == text[0] && u[1..] == tail;
    assert ReplacePatentNumbers(u) == [u[0]] + ReplacePatentNumbers(u[1..]);
  }

  /** No match starts at a plain first character after the rest of the text is redacted. */
  lemma StillNoMatch(text: string)
    requires text != [] && MatchLength(text).None?
    ensures MatchLength([text[0]] + ReplacePatentNumbers(text[1..])).None?
  {
    var tail := ReplacePatentNumbers(text[1..]);
    var u := [text[0]] + tail;
    var i := UnchangedPrefix(text[1..]);
    assert u[..i + 1] == [text[0]] + tail[..i];
    assert text[..i + 1] == [text[0]] + text[1..][..i];
    MatchNeedsUnchangedPrefix(text, u, i + 1);
  }

  /** There are no word boundaries: a grant number may start inside a longer number... */
  lemma GrantInsideLongerNumber(digit: string, grant: string)
    requires digit == "1" && grant == "2,345,678"
    ensures ReplacePatentNumbers(digit + grant) == digit + Sentinel
  {
    var s := digit + grant;
    assert s[0] == '1' && s[1] == '2' && s[2] == ',';
    assert s[..4] != "PCT/" by { assert s[..4][0] == '1'; }
    assert MatchLength(s[0..]).None?;
    ReplaceAfterPlainPrefix(digit, grant);
    assert IsGrant(grant) && |grant| == 9;
    ReplaceMatch(grant, 9);
    assert grant[9..] == [];
  }

  /** `\s` also matches the ASCII separators 28..31, such as the file separator. */
  lemma FileSeparatorIsSpace(grant: string)
    requires grant == "1" + [28 as char] + "234,567"
    ensures ReplacePatentNumbers(grant) == Sentinel
  {
    assert IsGrant(grant);
    ReplaceMatch(grant, 9);
    assert grant[9..] == [];
  }

  /** ...and digits after a grant number are left over. */
  lemma GrantThenDigits(t: string)
    requires t == "1,234,567,890"
    ensures ReplacePatentNumbers(t) == Sentinel + ",890"
  {
    assert IsGrant(t);
    ReplaceMatch(t, 9);
    assert t[9..] == ",890";
    NoMatchUnchanged(",890");
  }

  /** Plain text, then a number, then more text. */
  lemma ReplaceSegment(plain: string, number: string, rest: string)
    requires NoMatchWithin(plain, number + rest)
    requires MatchLength(number + rest) == Some(|number|)
    ensures ReplacePatentNumbers(plain + (number + rest)) == plain + (Sentinel + ReplacePatentNumbers(rest))
  {
    ReplaceAfterPlainPrefix(plain, number + rest);
    assert (number + rest)[|number|..] == rest;
  }

  /** No match starts at a character that is neither a digit nor `P`. */
  lemma PlainWord(word: string, rest: string)
    requires forall k :: 0 <= k < |word| ==> !IsDigit(word[k]) && word[k] != 'P'
    ensures NoMatchWithin(word, rest)
  {
    forall k | 0 <= k < |word| ensures MatchLength((word + rest)[k..]).None? {
      var t := (word + rest)[k..];
      assert t[0] == word[k];
    }
  }

  lemma PctExampleMatches(pct: string, rest: string)
    requires pct == "PCT/US2019/012345"
    ensures MatchLength(pct + rest) == Some(|pct|)
  {
    assert PctShape(pct + rest, 4, 6);
    PctLengthIsBacktracking(pct + rest);
  }

  lemma GrantExampleMatches(grant: string, rest: string)
    requires grant == "7,654,321"
    ensures MatchLength(grant + rest) == Some(|grant|)
  {
    assert IsGrant(grant + rest);
  }

  lemma ApplicationExampleMatches(application: string, rest: string)
    requires application == "13/123,456"
    ensures MatchLength(application + rest) == Some(|application|)
  {
    assert IsApplication(application + rest);
  }

  lemma ExampleLastNumber(pct: string)
    requires pct == "PCT/US2019/012345"
    ensures ReplacePatentNumbers(" and " + (pct + ".")) == " and " + (Sentinel + ".")
  {
    PctExampleMatches(pct, ".");
    PlainWord(" and ", pct + ".");
    ReplaceSegment(" and ", pct, ".");
    PlainWord(".", []);
    assert "." + [] == ".";
    NoMatchUnchanged(".");
  }

  lemma ExampleLastTwoNumbers(grant: string, pct: string)
    requires grant == "7,654,321" && pct == "PCT/US2019/012345"
    ensures ReplacePatentNumbers(" and " + (grant + (" and " + (pct + "."))))
         == " and " + (Sentinel + (" and " + (Sentinel + ".")))
  {
    ExampleLastNumber(pct);
    var rest := " and " + (pct + ".");
    GrantExampleMatches(grant, rest);
    PlainWord(" and ", grant + rest);
    ReplaceSegment(" and ", grant, rest);
  }

  /** All three kinds of number in one sentence. */
  lemma RedactionExample(application: string, grant: string, pct: string)
    requires application == "13/123,456" && grant == "7,654,321" && pct == "PCT/US2019/012345"
    ensures ReplacePatentNumbers("See " + (application + (" and " + (grant + (" and " + (pct + "."))))))
         == "See " + (Sentinel + (" and " + (Sentinel + (" and " + (Sentinel + ".")))))
  {
    ExampleLastTwoNumbers(grant, pct);
    var rest := " and " + (grant + (" and " + (pct + ".")));
    ApplicationExampleMatches(application, rest);
    PlainWord("See ", application + rest);
    ReplaceSegment("See ", application, rest);
  }
}
