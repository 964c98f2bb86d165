/**
 * The token-list transformations of the utilities module. The stemmer and
 * the stopword list come from an external linguistic library; here they
 * are parameters: `stemmer` is any deterministic function from a token to
 * its stem, `stopwords` any list of words.
 */
module Normalizers {
  import opened Wrappers
  import opened Strings

  // ---------------------------------------------------------------------
  // Filters: remove_non_words, remove_stopwords

  /** The tokens that pass `keep`, in their original order. */
  function Filter(tokens: seq<string>, keep: string -> bool): (r: seq<string>)
    ensures |r| <= |tokens|
    ensures forall i :: 0 <= i < |r| ==> keep(r[i])
    decreases |tokens|
  {
    if tokens == [] then []
    else
      assert tokens == [tokens[0]] + tokens[1..];
      (if keep(tokens[0]) then [tokens[0]] else []) + Filter(tokens[1..], keep)
  }

  /** A word survives exactly when it occurs and passes. */
  lemma {:induction false} FilterMembers(tokens: seq<string>, keep: string -> bool)
    ensures forall w :: w in Filter(tokens, keep) <==> w in tokens && keep(w)
    decreases |tokens|
  {
    if tokens != [] {
      FilterMembers(tokens[1..], keep);
      assert tokens == [tokens[0]] + tokens[1..];
    }
  }

  /** Every token that passes is kept as often as it occurs; every other is dropped. */
  lemma {:induction false} FilterCounts(tokens: seq<string>, keep: string -> bool)
    ensures forall w :: multiset(Filter(tokens, keep))[w] == if keep(w) then multiset(tokens)[w] else 0
    decreases |tokens|
  {
    if tokens != [] {
      FilterCounts(tokens[1..], keep);
      assert tokens == [tokens[0]] + tokens[1..];
    }
  }

  /** Filtering distributes over concatenation, so the order of the survivors is the input's. */
  lemma {:induction false} FilterAppend(a: seq<string>, b: seq<string>, keep: string -> bool)
    ensures Filter(a + b, keep) == Filter(a, keep) + Filter(b, keep)
    decreases |a|
  {
    if a != [] {
      var head := if keep(a[0]) then [a[0]] else [];
      FilterAppend(a[1..], b, keep);
      assert a + b == [a[0]] + (a[1..] + b);
      FilterCons(a[0], a[1..] + b, keep);
      FilterCons(a[0], a[1..], keep);
      assert a == [a[0]] + a[1..];
      calc {
        Filter(a + b, keep);
        head + Filter(a[1..] + b, keep);
        head + (Filter(a[1..], keep) + Filter(b, keep));
        (head + Filter(a[1..], keep)) + Filter(b, keep);
      }
    } else {
      assert a + b == b;
    }
  }

  /** One token in front: kept if it passes, then the rest filtered. */
  lemma FilterCons(t: string, rest: seq<string>, keep: string -> bool)
    ensures Filter([t] + rest, keep) == (if keep(t) then [t] else []) + Filter(rest, keep)
  {
    assert ([t] + rest)[0] == t;
    assert ([t] + rest)[1..] == rest;
  }

  /** Filtering a second time removes nothing more. */
  lemma {:induction false} FilterIdempotent(tokens: seq<string>, keep: string -> bool)
    ensures Filter(Filter(tokens, keep), keep) == Filter(tokens, keep)
    decreases |tokens|
  {
    if tokens != [] {
      FilterIdempotent(tokens[1..], keep);
      var head := if keep(tokens[0]) then [tokens[0]] else [];
      FilterAppend(head, Filter(tokens[1..], keep), keep);
      assert Filter(head, keep) == head by {
        if head != [] {
          assert head[1..] == [];
        }
      }
    }
  }

  /** `a` is `b` with some tokens left out, the rest in order. */
  predicate Subsequence(a: seq<string>, b: seq<string>)
    decreases |b|
  {
    if b == [] then a == []
    else (a != [] && a[0] == b[0] && Subsequence(a[1..], b[1..])) || Subsequence(a, b[1..])
  }

  lemma {:induction false} FilterSubsequence(tokens: seq<string>, keep: string -> bool)
    ensures Subsequence(Filter(tokens, keep), tokens)
    decreases |tokens|
  {
    if tokens != [] {
      FilterSubsequence(tokens[1..], keep);
      var r := Filter(tokens, keep);
      if keep(tokens[0]) {
        assert r[0] == tokens[0] && r[1..] == Filter(tokens[1..], keep);
      } else {
        assert r == Filter(tokens[1..], keep);
      }
    }
  }

  /** `remove_non_words`: the tokens that are non-empty and all letters. */
  function RemoveNonWords(tokens: seq<string>): (r: seq<string>)
    ensures forall i :: 0 <= i < |r| ==> IsAlpha(r[i])
    ensures forall w :: w in r <==> w in tokens && IsAlpha(w)
    ensures forall w :: multiset(r)[w] == if IsAlpha(w) then multiset(tokens)[w] else 0
    ensures Subsequence(r, tokens)
  {
    FilterSubsequence(tokens, IsAlpha);
    FilterMembers(tokens, IsAlpha);
    FilterCounts(tokens, IsAlpha);
    Filter(tokens, IsAlpha)
  }

  predicate NotStopword(stopwords: seq<string>, w: string) { w !in stopwords }

  /** `remove_stopwords`: the tokens not in the stopword list. */
  function RemoveStopwords(tokens: seq<string>, stopwords: seq<string>): (r: seq<string>)
    ensures forall i :: 0 <= i < |r| ==> r[i] !in stopwords
    ensures forall w :: w in r <==> w in tokens && w !in stopwords
    ensures forall w :: multiset(r)[w] == if w in stopwords then 0 else multiset(tokens)[w]
    ensures Subsequence(r, tokens)
  {
    var keep := w => NotStopword(stopwords, w);
    FilterSubsequence(tokens, keep);
    FilterMembers(tokens, keep);
    FilterCounts(tokens, keep);
    Filter(tokens, keep)
  }

  lemma RemoveNonWordsIdempotent(tokens: seq<string>)
    ensures RemoveNonWords(RemoveNonWords(tokens)) == RemoveNonWords(tokens)
  {
    FilterIdempotent(tokens, IsAlpha);
  }

  lemma RemoveStopwordsIdempotent(tokens: seq<string>, stopwords: seq<string>)
    ensures RemoveStopwords(RemoveStopwords(tokens, stopwords), stopwords) == RemoveStopwords(tokens, stopwords)
  {
    FilterIdempotent(tokens, w => NotStopword(stopwords, w));
  }

  // ---------------------------------------------------------------------
  // stem, lemmatise

  /** `stem`: every token replaced by its stem. */
  function Stem(tokens: seq<string>, stemmer: string -> string): (r: seq<string>)
    ensures |r| == |tokens|
    ensures forall i :: 0 <= i < |tokens| ==> r[i] == stemmer(tokens[i])
    decreases |tokens|
  {
    if tokens == [] then [] else [stemmer(tokens[0])] + Stem(tokens[1..], stemmer)
  }

  lemma StemAppend(a: seq<string>, b: seq<string>, stemmer: string -> string)
    ensures Stem(a + b, stemmer) == Stem(a, stemmer) + Stem(b, stemmer)
  {
  }

  /** `lemmatise` is a placeholder in the source: it does nothing and returns `None`. */
  function Lemmatise(tokensWithPos: seq<(string, string)>): Option<seq<string>> {
    None
  }

  // ---------------------------------------------------------------------
  // Token-by-token expansion, shared by capitals_process and punctuation_split

  /** The tokens each of `tokens` expands to under `f`, in order. */
  function FlatMap(tokens: seq<string>, f: string -> seq<string>): seq<string> {
    if tokens == [] then []
    else FlatMap(tokens[..|tokens| - 1], f) + f(tokens[|tokens| - 1])
  }

  /** The loop step: one more token processed. */
  lemma FlatMapStep(tokens: seq<string>, i: nat, f: string -> seq<string>)
    requires i < |tokens|
    ensures FlatMap(tokens[..i + 1], f) == FlatMap(tokens[..i], f) + f(tokens[i])
  {
    assert tokens[..i + 1][..i] == tokens[..i];
  }

  lemma {:induction false} FlatMapAppend(a: seq<string>, b: seq<string>, f: string -> seq<string>)
    ensures FlatMap(a + b, f) == FlatMap(a, f) + FlatMap(b, f)
    decreases |b|
  {
    if b == [] {
      assert a + b == a;
    } else {
      var b' := b[..|b| - 1];
      assert (a + b)[..|a + b| - 1] == a + b';
      var last := b[|b| - 1];
      assert (a + b)[|a + b| - 1] == last;
      FlatMapAppend(a, b', f);
      calc {
        FlatMap(a + b, f);
        FlatMap(a + b', f) + f(last);
        (FlatMap(a, f) + FlatMap(b', f)) + f(last);
        FlatMap(a, f) + (FlatMap(b', f) + f(last));
        FlatMap(a, f) + FlatMap(b, f);
      }
    }
  }

  lemma FlatMapOne(t: string, f: string -> seq<string>)
    ensures FlatMap([t], f) == f(t)
  {
    assert [t][..0] == [];
  }

  // ---------------------------------------------------------------------
  // stem_split

  /**
   * One token's contribution when its stem is `stem`: the token itself if
   * it is its own stem; else, if the stem occurs in it, the stem and the
   * piece of the token between the end of the stem's first occurrence and
   * the next occurrence (or the end); else the token itself.
   */
  function SplitOffStem(token: string, stem: string): (r: seq<string>)
    requires stem != ""
    ensures 1 <= |r| <= 2
    ensures token == stem ==> r == [token]
  {
    var splitList := Split(token, stem);
    if token == stem then [token]
    else if |splitList| > 1 then [stem, splitList[1]]
    else [splitList[0]]
  }

  /**
   * `piece` stands in `token` at `start`, no occurrence of `stem` starts
   * inside it, and it is followed by the end of the token or by an
   * occurrence of `stem`: it runs up to the next occurrence.
   */
  predicate PieceAfter(token: string, stem: string, start: nat, piece: string) {
    && start + |piece| <= |token|
    && token[start..start + |piece|] == piece
    && (forall q :: start <= q < start + |piece| ==> !OccursAt(token, stem, q))
    && (start + |piece| == |token| || OccursAt(token, stem, start + |piece|))
  }

  /** A token that does not contain its stem stays whole. */
  lemma SplitOffStemWhole(token: string, stem: string)
    requires stem != "" && Find(token, stem).None?
    ensures SplitOffStem(token, stem) == [token]
  {
    assert Split(token, stem) == [token];
  }

  /**
   * A token that contains its stem, and is not the stem itself, becomes the
   * stem, then the text that follows the stem's first occurrence up to the
   * next occurrence or the end.
   */
  lemma SplitOffStemPieces(token: string, stem: string)
    requires stem != "" && token != stem && Find(token, stem).Some?
    ensures var r := SplitOffStem(token, stem);
      |r| == 2 && r[0] == stem && PieceAfter(token, stem, Find(token, stem).value + |stem|, r[1])
  {
    var start := Find(token, stem).value + |stem|;
    var piece := Split(token[start..], stem)[0];
    SplitOffStemAt(token, stem);
    assert SplitOffStem(token, stem) == [stem, piece];
    PieceAt(token, start, stem);
    assert PieceAfter(token, stem, start, piece);
  }

  lemma SplitOffStemAt(token: string, stem: string)
    requires stem != "" && token != stem && Find(token, stem).Some?
    ensures SplitOffStem(token, stem) == [stem, Split(token[Find(token, stem).value + |stem|..], stem)[0]]
  {
    SplitUnfold(token, stem);
  }

  /** At most one piece fits: the run up to the next occurrence is unique. */
  lemma PieceAfterUnique(token: string, stem: string, start: nat, p1: string, p2: string)
    requires PieceAfter(token, stem, start, p1) && PieceAfter(token, stem, start, p2)
    ensures p1 == p2
  {
    assert |p1| == |p2|;
  }

  /** A self-overlapping stem: `"aaaaa".split("aa")[1]` is empty. */
  lemma OverlappingStem(token: string, stem: string)
    requires token == "aaaaa" && stem == "aa"
    ensures SplitOffStem(token, stem) == [stem, ""]
  {
    assert OccursAt(token, stem, 0);
    assert Find(token, stem) == Some(0);
    SplitOffStemPieces(token, stem);
    assert OccursAt(token, stem, 2);
    assert PieceAfter(token, stem, 2, "");
    PieceAfterUnique(token, stem, 2, SplitOffStem(token, stem)[1], "");
  }

  /** A split with an occurrence: the prefix before it, then the split of what follows. */
  lemma SplitUnfold(token: string, stem: string)
    requires stem != "" && Find(token, stem).Some?
    ensures var p := Find(token, stem).value;
      |Split(token, stem)| >= 2 && Split(token, stem)[1] == Split(token[p + |stem|..], stem)[0]
  {
  }

  /** The first piece of the split of a suffix, placed in the whole token. */
  lemma PieceAt(token: string, start: nat, stem: string)
    requires stem != "" && start <= |token|
    ensures PieceAfter(token, stem, start, Split(token[start..], stem)[0])
  {
    var rest := token[start..];
    var piece := Split(rest, stem)[0];
    FirstPiece(rest, stem);
    forall q | start <= q < start + |piece|
      ensures !OccursAt(token, stem, q)
    {
      assert !OccursAt(rest, stem, q - start);
      if q + |stem| <= |token| {
        assert rest[q - start..q - start + |stem|] == token[q..q + |stem|];
      }
    }
    assert token[start..start + |piece|] == rest[..|piece|];
    if |piece| < |rest| {
      assert rest[|piece|..|piece| + |stem|] == token[start + |piece|..start + |piece| + |stem|];
    }
  }

  /** The first piece of a split is a prefix, followed by the end or by the separator. */
  lemma FirstPiece(s: string, sep: string)
    requires sep != ""
    ensures
      var piece := Split(s, sep)[0];
      && |piece| <= |s| && s[..|piece|] == piece
      && (forall q :: 0 <= q < |piece| ==> !OccursAt(s, sep, q))
      && (|piece| == |s| || OccursAt(s, sep, |piece|))
  {
  }

  /** Every token's stem is non-empty (else `token.split(stem)` raises `ValueError`). */
  predicate StemsNonEmpty(tokens: seq<string>, stemmer: string -> string) {
    forall j :: 0 <= j < |tokens| ==> stemmer(tokens[j]) != ""
  }

  /** The tokens `stem_split` produces, token after token. */
  function StemSplitPieces(tokens: seq<string>, stemmer: string -> string): (r: seq<string>)
    requires StemsNonEmpty(tokens, stemmer)
  {
    if tokens == [] then []
    else
      var last := tokens[|tokens| - 1];
      StemSplitPieces(tokens[..|tokens| - 1], stemmer) + SplitOffStem(last, stemmer(last))
  }

  /** The loop step: one more token processed. */
  lemma StemSplitStep(tokens: seq<string>, i: nat, stemmer: string -> string)
    requires i < |tokens| && StemsNonEmpty(tokens[..i], stemmer) && stemmer(tokens[i]) != ""
    ensures StemsNonEmpty(tokens[..i + 1], stemmer)
    ensures StemSplitPieces(tokens[..i + 1], stemmer)
         == StemSplitPieces(tokens[..i], stemmer) + SplitOffStem(tokens[i], stemmer(tokens[i]))
  {
    assert tokens[..i + 1][..i] == tokens[..i];
    assert forall j :: 0 <= j < i ==> tokens[..i + 1][j] == tokens[..i][j];
  }

  /** What `stem_split` returns or raises. */
  function StemSplitResult(tokens: seq<string>, stemmer: string -> string): Result<seq<string>> {
    if StemsNonEmpty(tokens, stemmer) then Ok(StemSplitPieces(tokens, stemmer)) else Raise(ValueError)
  }

  /** `stem_split` */
  method StemSplit(tokens: seq<string>, stemmer: string -> string) returns (r: Result<seq<string>>)
    ensures r == StemSplitResult(tokens, stemmer)
  {
    var tokenList: seq<string> := [];
    var i := 0;
    while i < |tokens|
      invariant 0 <= i <= |tokens|
      invariant StemsNonEmpty(tokens[..i], stemmer)
      invariant tokenList == StemSplitPieces(tokens[..i], stemmer)
    {
      var token := tokens[i];
      var stem := stemmer(token);
      if stem == "" {
        return Raise(ValueError);
      }
      ghost var before := tokenList;
      var splitList := Split(token, stem);
      if token == stem {
        tokenList := tokenList + [token];
      } else if |splitList| > 1 {
        tokenList := tokenList + [stem];
        tokenList := tokenList + [splitList[1]];
      } else {
        tokenList := tokenList + [splitList[0]];
      }
      assert tokenList == before + SplitOffStem(token, stem);
      StemSplitStep(tokens, i, stemmer);
      i := i + 1;
    }
    assert tokens[..i] == tokens;
    return Ok(tokenList);
  }

  /** Every token yields one or two tokens. */
  lemma {:induction false} StemSplitLength(tokens: seq<string>, stemmer: string -> string)
    requires StemsNonEmpty(tokens, stemmer)
    ensures |tokens| <= |StemSplitPieces(tokens, stemmer)| <= 2 * |tokens|
    decreases |tokens|
  {
    if tokens != [] {
      var last := tokens[|tokens| - 1];
      var r := Split(last, stemmer(last));
      StemSplitLength(tokens[..|tokens| - 1], stemmer);
    }
  }

  /** Tokens that are their own stems pass through `stem_split` unchanged. */
  lemma {:induction false} StemSplitFixedPoints(tokens: seq<string>, stemmer: string -> string)
    requires forall j :: 0 <= j < |tokens| ==> tokens[j] != "" && stemmer(tokens[j]) == tokens[j]
    ensures StemSplitResult(tokens, stemmer) == Ok(tokens)
    decreases |tokens|
  {
    if tokens != [] {
      StemSplitFixedPoints(tokens[..|tokens| - 1], stemmer);
      assert tokens == tokens[..|tokens| - 1] + [tokens[|tokens| - 1]];
    }
  }

  // ---------------------------------------------------------------------
  // capitals_process

  const Capital: string := "_CAPITAL_"
  const AllCapital: string := "_ALL_CAPITAL_"

  /** The marker put before a non-empty token that starts with a capital. */
  function CapitalMarker(token: string): string
    requires token != ""
  {
    if |token| > 1 && IsUpper(token[1]) then AllCapital else Capital
  }

  /** The token itself if it starts or ends with `_`, else its lower-case form. */
  function Normalised(token: string): string
    requires token != ""
  {
    if token[0] != '_' && token[|token| - 1] != '_' then Lower(token) else token
  }

  /** Nothing for an empty token; else a marker if it starts with a capital, then its normalised form. */
  function CapitalsOfToken(t: string): seq<string> {
    if t == "" then []
    else (if IsUpper(t[0]) then [CapitalMarker(t)] else []) + [Normalised(t)]
  }

  /** The tokens `capitals_process` produces, token after token. */
  function CapitalsPieces(tokens: seq<string>): seq<string> {
    FlatMap(tokens, CapitalsOfToken)
  }

  /** `capitals_process` */
  method CapitalsProcess(tokens: seq<string>) returns (tokenList: seq<string>)
    ensures tokenList == CapitalsPieces(tokens)
  {
    tokenList := [];
    var i := 0;
    while i < |tokens|
      invariant 0 <= i <= |tokens|
      invariant tokenList == CapitalsPieces(tokens[..i])
    {
      var token := tokens[i];
      if token != "" {
        if IsUpper(token[0]) {
          var capitalToken := Capital;
          if |token| > 1 {
            if IsUpper(token[1]) {
              capitalToken := AllCapital;
            }
          }
          tokenList := tokenList + [capitalToken];
        }
        if token[0] != '_' && token[|token| - 1] != '_' {
          tokenList := tokenList + [Lower(token)];
        } else {
          tokenList := tokenList + [token];
        }
      }
      FlatMapStep(tokens, i, CapitalsOfToken);
      i := i + 1;
    }
    assert tokens[..i] == tokens;
  }

  /** The number of tokens of `tokens` that satisfy `p`. */
  function Count(tokens: seq<string>, p: string -> bool): nat {
    if tokens == [] then 0
    else Count(tokens[..|tokens| - 1], p) + (if p(tokens[|tokens| - 1]) then 1 else 0)
  }

  predicate NonEmpty(t: string) { t != "" }
  predicate StartsUpper(t: string) { t != "" && IsUpper(t[0]) }

  /** One token per non-empty token, plus one marker per token starting with a capital. */
  lemma {:induction false} CapitalsLength(tokens: seq<string>)
    ensures |CapitalsPieces(tokens)| == Count(tokens, NonEmpty) + Count(tokens, StartsUpper)
    decreases |tokens|
  {
    if tokens != [] {
      CapitalsLength(tokens[..|tokens| - 1]);
      FlatMapStep(tokens, |tokens| - 1, CapitalsOfToken);
      assert tokens[..|tokens| - 1 + 1] == tokens;
    }
  }

  /** How a token was capitalised, as the markers record it. */
  datatype Case = Plain | Capitalised | AllCapitals

  function CaseOf(token: string): Case
    requires token != ""
  {
    if !IsUpper(token[0]) then Plain
    else if CapitalMarker(token) == AllCapital then AllCapitals
    else Capitalised
  }

  /** Reads a marked token list back: each marker annotates the token right after it. */
  function ReadMarkers(marked: seq<string>): seq<(Case, string)>
    decreases |marked|
  {
    if marked == [] then []
    else if |marked| >= 2 && marked[0] == Capital then [(Capitalised, marked[1])] + ReadMarkers(marked[2..])
    else if |marked| >= 2 && marked[0] == AllCapital then [(AllCapitals, marked[1])] + ReadMarkers(marked[2..])
    else [(Plain, marked[0])] + ReadMarkers(marked[1..])
  }

  /** What the markers should say: for each non-empty token, its case and its normalised form. */
  function Annotations(tokens: seq<string>): seq<(Case, string)>
    decreases |tokens|
  {
    if tokens == [] then []
    else if tokens[0] == "" then Annotations(tokens[1..])
    else [(CaseOf(tokens[0]), Normalised(tokens[0]))] + Annotations(tokens[1..])
  }

  /** A normalised token is never a marker when the original is not one. */
  lemma NormalisedIsNoMarker(t: string)
    requires t != "" && t != Capital && t != AllCapital
    ensures Normalised(t) != Capital && Normalised(t) != AllCapital
  {
    if Normalised(t) == Lower(t) {
      LowerIdempotent(t);
      assert IsUpper(Capital[1]) && IsUpper(AllCapital[1]);
    }
  }

  /**
   * Unless a token already is a marker, reading the markers back recovers,
   * for every non-empty token in order, how it was capitalised and its
   * normalised form: each marker stands right before the token it is about.
   */
  lemma {:induction false} MarkersReadBack(tokens: seq<string>)
    requires forall j :: 0 <= j < |tokens| ==> tokens[j] != Capital && tokens[j] != AllCapital
    ensures ReadMarkers(CapitalsPieces(tokens)) == Annotations(tokens)
    decreases |tokens|
  {
    if tokens != [] {
      var t := tokens[0];
      assert tokens == [t] + tokens[1..];
      FlatMapAppend([t], tokens[1..], CapitalsOfToken);
      FlatMapOne(t, CapitalsOfToken);
      MarkersReadBack(tokens[1..]);
      var rest := CapitalsPieces(tokens[1..]);
      if t != "" {
        NormalisedIsNoMarker(t);
        var head := CapitalsOfToken(t);
        if IsUpper(t[0]) {
          assert head == [CapitalMarker(t), Normalised(t)];
          assert (head + rest)[2..] == rest;
        } else {
          assert head == [Normalised(t)];
          assert (head + rest)[1..] == rest;
        }
      } else {
        assert CapitalsPieces(tokens) == rest;
        assert Annotations(tokens) == Annotations(tokens[1..]);
      }
    }
  }

  lemma CapitalsExample(apple: string, all: string, dog: string)
    requires apple == "Apple" && all == "ALL" && dog == "dog"
    ensures CapitalsPieces([apple, all, dog]) == [Capital, "apple", AllCapital, "all", "dog"]
  {
    FlatMapOne(apple, CapitalsOfToken);
    FlatMapOne(all, CapitalsOfToken);
    FlatMapOne(dog, CapitalsOfToken);
    assert Lower(apple) == "apple";
    assert Lower(all) == "all";
    assert Lower(dog) == "dog";
    FlatMapAppend([apple], [all], CapitalsOfToken);
    FlatMapAppend([apple, all], [dog], CapitalsOfToken);
    assert [apple] + [all] == [apple, all];
    assert [apple, all] + [dog] == [apple, all, dog];
  }

  /** The second character decides between the two markers. */
  lemma MarkerExamples(ab: string, aB: string)
    requires ab == "Ab" && aB == "AB"
    ensures CapitalsPieces([ab]) == [Capital, "ab"]
    ensures CapitalsPieces([aB]) == [AllCapital, "ab"]
  {
    FlatMapOne(ab, CapitalsOfToken);
    FlatMapOne(aB, CapitalsOfToken);
    assert Lower(ab) == "ab";
    assert Lower(aB) == "ab";
  }

  // ---------------------------------------------------------------------
  // punctuation_split

  const EmDash: char := '\U{2014}'

  /** The first `i` parts, each but the very last of all the parts followed by `or`. */
  function WithOr(parts: seq<string>, i: nat): seq<string>
    requires i <= |parts|
  {
    if i == 0 then []
    else WithOr(parts, i - 1) + [parts[i - 1]] + (if i - 1 < |parts| - 1 then ["or"] else [])
  }

  /** The parts with `or` between consecutive ones. */
  function Interleave(parts: seq<string>): seq<string> {
    WithOr(parts, |parts|)
  }

  /** The tokens at even positions: the parts `Interleave` was given. */
  function EvenPositions(s: seq<string>): (r: seq<string>)
    ensures |r| == (|s| + 1) / 2
  {
    seq((|s| + 1) / 2, j requires 0 <= j < (|s| + 1) / 2 => s[2 * j])
  }

  /** Part `j` stands at position `2j`, an `or` at every odd position before the last part. */
  lemma {:induction false} WithOrLayout(parts: seq<string>, i: nat)
    requires 1 <= i <= |parts|
    ensures |WithOr(parts, i)| == if i < |parts| then 2 * i else 2 * i - 1
    ensures forall j :: 0 <= j < i ==> WithOr(parts, i)[2 * j] == parts[j]
    ensures forall j :: 0 <= j < |WithOr(parts, i)| && j % 2 == 1 ==> WithOr(parts, i)[j] == "or"
    decreases i
  {
    if i > 1 {
      WithOrLayout(parts, i - 1);
    }
  }

  lemma InterleaveLayout(parts: seq<string>)
    requires parts != []
    ensures |Interleave(parts)| == 2 * |parts| - 1
    ensures EvenPositions(Interleave(parts)) == parts
    ensures forall j :: 0 <= j < |Interleave(parts)| && j % 2 == 1 ==> Interleave(parts)[j] == "or"
  {
    WithOrLayout(parts, |parts|);
  }

  /** The tokens `punctuation_split` makes of one token, in the source's order of tests. */
  function PunctuationOfToken(token: string): seq<string> {
    if '/' in token && token != "and/or" then Interleave(Split(token, "/"))
    else if '-' in token then Split(token, "-")
    else if EmDash in token then Split(token, [EmDash])
    else [token]
  }

  /** The tokens `punctuation_split` produces, token after token. */
  function PunctuationPieces(tokens: seq<string>): seq<string> {
    FlatMap(tokens, PunctuationOfToken)
  }

  /** `punctuation_split` */
  method PunctuationSplit(tokens: seq<string>) returns (tokenList: seq<string>)
    ensures tokenList == PunctuationPieces(tokens)
  {
    tokenList := [];
    var i := 0;
    while i < |tokens|
      invariant 0 <= i <= |tokens|
      invariant tokenList == PunctuationPieces(tokens[..i])
    {
      var token := tokens[i];
      ghost var before := tokenList;
      if '/' in token && token != "and/or" {
        tokenList := AppendWithOr(tokenList, Split(token, "/"));
      } else if '-' in token {
        tokenList := AppendParts(tokenList, Split(token, "-"));
      } else if EmDash in token {
        tokenList := AppendParts(tokenList, Split(token, [EmDash]));
      } else {
        tokenList := tokenList + [token];
      }
      assert tokenList == before + PunctuationOfToken(token);
      FlatMapStep(tokens, i, PunctuationOfToken);
      i := i + 1;
    }
    assert tokens[..i] == tokens;
  }

  /** The loop over the parts of a slashed token: each part, and `or` after all but the last. */
  method AppendWithOr(tokenList: seq<string>, parts: seq<string>) returns (r: seq<string>)
    ensures r == tokenList + Interleave(parts)
  {
    r := tokenList;
    var k := 0;
    while k < |parts|
      invariant 0 <= k <= |parts|
      invariant r == tokenList + WithOr(parts, k)
    {
      r := r + [parts[k]];
      if k < |parts| - 1 {
        r := r + ["or"];
      }
      k := k + 1;
    }
  }

  /** The loop over the parts of a hyphenated or em-dashed token: each part in turn. */
  method AppendParts(tokenList: seq<string>, parts: seq<string>) returns (r: seq<string>)
    ensures r == tokenList + parts
  {
    r := tokenList;
    var k := 0;
    while k < |parts|
      invariant 0 <= k <= |parts|
      invariant r == tokenList + parts[..k]
    {
      r := r + [parts[k]];
      assert parts[..k + 1] == parts[..k] + [parts[k]];
      k := k + 1;
    }
    assert parts[..k] == parts;
  }

  /**
   * Each token's pieces restore it: the parts of a slashed token (the even
   * positions, `or` at the odd ones) joined with `/`, the parts of a
   * hyphenated or em-dashed one joined with its separator; any other token,
   * `and/or` included, is kept whole.
   */
  lemma PunctuationRestores(token: string)
    ensures '/' in token && token != "and/or" ==>
      var r := PunctuationOfToken(token);
      && |r| == 2 * |Split(token, "/")| - 1 && |r| >= 3
      && (forall j :: 0 <= j < |r| && j % 2 == 1 ==> r[j] == "or")
      && Join(EvenPositions(r), "/") == token
    ensures !('/' in token && token != "and/or") && '-' in token ==>
      |PunctuationOfToken(token)| >= 2 && Join(PunctuationOfToken(token), "-") == token
    ensures !('/' in token && token != "and/or") && '-' !in token && EmDash in token ==>
      |PunctuationOfToken(token)| >= 2 && Join(PunctuationOfToken(token), [EmDash]) == token
    ensures !('/' in token && token != "and/or") && '-' !in token && EmDash !in token ==>
      PunctuationOfToken(token) == [token]
  {
    if '/' in token && token != "and/or" {
      FindChar(token, '/');
      InterleaveLayout(Split(token, "/"));
      JoinSplit(token, "/");
    } else if '-' in token {
      FindChar(token, '-');
      JoinSplit(token, "-");
    } else if EmDash in token {
      FindChar(token, EmDash);
      JoinSplit(token, [EmDash]);
    }
  }

  /** No token is lost: each yields at least one. */
  lemma {:induction false} PunctuationLength(tokens: seq<string>)
    ensures |PunctuationPieces(tokens)| >= |tokens|
    decreases |tokens|
  {
    if tokens != [] {
      PunctuationLength(tokens[..|tokens| - 1]);
      FlatMapStep(tokens, |tokens| - 1, PunctuationOfToken);
      assert tokens[..|tokens| - 1 + 1] == tokens;
      var t := tokens[|tokens| - 1];
      if '/' in t && t != "and/or" {
        InterleaveLayout(Split(t, "/"));
      }
    }
  }

  /** A token with one separator character splits into the text on either side of it. */
  lemma SplitOnce(a: string, c: char, b: string)
    requires c !in a && c !in b
    ensures Split(a + [c] + b, [c]) == [a, b]
  {
    var s := a + [c] + b;
    assert s[|a|..|a| + 1] == [c];
    assert OccursAt(s, [c], |a|);
    var p := Find(s, [c]).value;
    assert s[p..p + 1] == [c];
    forall q | 0 <= q < |a|
      ensures !OccursAt(s, [c], q)
    {
      assert s[q] == a[q];
      assert s[q..q + 1] == [s[q]];
    }
    assert p == |a|;
    assert s[..p] == a;
    assert s[p + 1..] == b;
    FindChar(b, c);
  }

  /** A slashed token splits at the slash, with `or` in its place. */
  lemma SlashExample(slashed: string)
    requires slashed == "A/B"
    ensures PunctuationOfToken(slashed) == ["A", "or", "B"]
  {
    assert slashed == "A" + ['/'] + "B" && '/' in slashed;
    SplitOnce("A", '/', "B");
    var ab := ["A", "B"];
    assert WithOr(ab, 1) == ["A", "or"];
    assert Interleave(ab) == ["A", "or", "B"];
  }
  /** A hyphenated token splits at the hyphen. */
  lemma HyphenExample(hyphenated: string)
    requires hyphenated == "well-known"
    ensures PunctuationOfToken(hyphenated) == ["well", "known"]
  {
    assert hyphenated == "well" + ['-'] + "known" && '-' in hyphenated && '/' !in hyphenated;
    SplitOnce("well", '-', "known");
  }

  /** A token with an em dash splits at the dash. */
  lemma EmDashExample(dashed: string)
    requires dashed == "x" + [EmDash] + "y"
    ensures PunctuationOfToken(dashed) == ["x", "y"]
  {
    assert EmDash in dashed && '/' !in dashed && '-' !in dashed;
    SplitOnce("x", EmDash, "y");
  }

  /** `and/or` is kept whole, unlike any other slashed token. */
  lemma AndOrKept(andOr: string)
    requires andOr == "and/or"
    ensures PunctuationOfToken(andOr) == [andOr]
  {
  }
}
