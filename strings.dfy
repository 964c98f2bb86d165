/**
 * The few Python `str` operations the utilities rely on: substring search,
 * `str.split` with an explicit separator, `str.join`, and the character
 * tests `isupper`, `isalpha` and `lower`, the last three restricted to
 * ASCII letters.
 */
module Strings {
  import opened Wrappers

  /** `sep` occurs in `s` starting at index `p`. */
  predicate OccursAt(s: string, sep: string, p: nat) {
    p + |sep| <= |s| && s[p..p + |sep|] == sep
  }

  /**
   * The index of the first occurrence of `sep` in `s` at or after `from`
   * (`s.find(sep, from)`, and `sep in s` when `from` is 0).
   */
  function FindFrom(s: string, sep: string, from: nat): (r: Option<nat>)
    requires from <= |s|
    ensures r.Some? ==> from <= r.value && OccursAt(s, sep, r.value)
    ensures r.Some? ==> forall q :: from <= q < r.value ==> !OccursAt(s, sep, q)
    ensures r.None? ==> forall q :: from <= q <= |s| ==> !OccursAt(s, sep, q)
    decreases |s| - from
  {
    if from + |sep| > |s| then None
    else if s[from..from + |sep|] == sep then Some(from)
    else FindFrom(s, sep, from + 1)
  }

  function Find(s: string, sep: string): (r: Option<nat>)
    ensures r.Some? ==> OccursAt(s, sep, r.value)
    ensures r.Some? ==> forall q :: 0 <= q < r.value ==> !OccursAt(s, sep, q)
    ensures r.None? ==> forall q :: 0 <= q <= |s| ==> !OccursAt(s, sep, q)
  {
    FindFrom(s, sep, 0)
  }

  /**
   * `s.split(sep)` for a non-empty separator: the pieces between the
   * successive non-overlapping occurrences of `sep`, scanned left to right.
   */
  function Split(s: string, sep: string): (parts: seq<string>)
    requires |sep| > 0
    ensures |parts| >= 1
    ensures |parts| > 1 <==> Find(s, sep).Some?
    decreases |s|
  {
    match Find(s, sep)
    case None => [s]
    case Some(p) => [s[..p]] + Split(s[p + |sep|..], sep)
  }

  /** `sep.join(parts)`. */
  function Join(parts: seq<string>, sep: string): string {
    if |parts| == 0 then ""
    else if |parts| == 1 then parts[0]
    else parts[0] + sep + Join(parts[1..], sep)
  }

  /** Joining the pieces with the separator gives back the string. */
  lemma {:induction false} JoinSplit(s: string, sep: string)
    requires |sep| > 0
    ensures Join(Split(s, sep), sep) == s
    decreases |s|
  {
    match Find(s, sep)
    case None =>
    case Some(p) =>
      var rest := s[p + |sep|..];
      var parts := Split(s, sep);
      JoinSplit(rest, sep);
      assert parts == [s[..p]] + Split(rest, sep);
      assert parts[0] == s[..p] && parts[1..] == Split(rest, sep);
      calc {
        Join(parts, sep);
        parts[0] + sep + Join(parts[1..], sep);
        s[..p] + sep + rest;
        { assert s[p..p + |sep|] == sep;
          assert s == s[..p] + s[p..p + |sep|] + s[p + |sep|..]; }
        s;
      }
  }

  /** No piece of a split contains the separator. */
  lemma {:induction false} SplitPiecesFree(s: string, sep: string)
    requires |sep| > 0
    ensures forall i :: 0 <= i < |Split(s, sep)| ==> Find(Split(s, sep)[i], sep).None?
    decreases |s|
  {
    var parts := Split(s, sep);
    match Find(s, sep)
    case None =>
    case Some(p) =>
      var rest := s[p + |sep|..];
      SplitPiecesFree(rest, sep);
      PrefixFree(s, sep, p);
      forall i | 0 <= i < |parts| ensures Find(parts[i], sep).None? {
        if i > 0 {
          assert parts[i] == Split(rest, sep)[i - 1];
        }
      }
  }

  /** A prefix of `s` ending before the first occurrence of `sep` holds no occurrence. */
  lemma PrefixFree(s: string, sep: string, p: nat)
    requires |sep| > 0 && Find(s, sep) == Some(p)
    ensures Find(s[..p], sep).None?
  {
    if Find(s[..p], sep).Some? {
      var q := Find(s[..p], sep).value;
      assert s[..p][q..q + |sep|] == s[q..q + |sep|];
      assert OccursAt(s, sep, q);
    }
  }

  /** For a one-character separator, Python's `c in s` is membership. */
  lemma FindChar(s: string, c: char)
    ensures Find(s, [c]).Some? <==> c in s
  {
    if c in s {
      var k :| 0 <= k < |s| && s[k] == c;
      assert s[k..k + 1] == [c];
      assert OccursAt(s, [c], k);
    }
    if Find(s, [c]).Some? {
      var p := Find(s, [c]).value;
      assert s[p..p + 1] == [c];
      assert s[p] == c;
    }
  }

  /** `c.isupper()` for an ASCII letter. */
  predicate IsUpper(c: char) { 'A' <= c <= 'Z' }

  predicate IsLowerLetter(c: char) { 'a' <= c <= 'z' }

  /** `s.isalpha()`: non-empty and every character a letter (ASCII letters here). */
  predicate IsAlpha(s: string) {
    |s| > 0 && forall i :: 0 <= i < |s| ==> IsUpper(s[i]) || IsLowerLetter(s[i])
  }

  function LowerChar(c: char): (d: char)
    ensures !IsUpper(d)
    ensures IsUpper(c) ==> IsLowerLetter(d) && d as int == c as int + 32
    ensures !IsUpper(c) ==> d == c
  {
    if IsUpper(c) then (c as int + 32) as char else c
  }

  /** `s.lower()` on ASCII letters: upper-case letters become lower case, all else stays. */
  function Lower(s: string): (r: string)
    ensures |r| == |s|
    ensures forall i :: 0 <= i < |s| ==> r[i] == LowerChar(s[i])
  {
    seq(|s|, i requires 0 <= i < |s| => LowerChar(s[i]))
  }

  /** Lower-casing leaves no upper-case letter and is idempotent. */
  lemma LowerIdempotent(s: string)
    ensures forall i :: 0 <= i < |Lower(s)| ==> !IsUpper(Lower(s)[i])
    ensures Lower(Lower(s)) == Lower(s)
  {
  }
}
