# patentdata text utilities, modelled in Dafny

This project models the text utility module of the `patentdata` package
(`patentdata/models/lib/utils.py`). The package prepares patent
documents for machine learning, and this module supplies its small
text-processing tools:

- a character codec that maps text onto the 98 supported printable
  characters and back (`string2int`, `string2printint`,
  `printint2string`, and the tables `PRINTABLE_CHAR_MAP` and
  `REVERSE_PRINT_CHAR_MAP`);
- a redactor that replaces US application numbers, US grant numbers and
  PCT application numbers with the token `_PATENT_NO_`
  (`replace_patent_numbers` over the three `REGEX_*` patterns);
- token-list filters: `remove_non_words`, `remove_stopwords`, `stem`;
- token-list rewriters: `stem_split`, `capitals_process`,
  `punctuation_split`;
- two container helpers: `check_list` and `safeget`.

Modules, one file each:

- `Wrappers` (`wrappers.dfy`): `Option`, and a `Result` that carries the
  exception the source raises (`TypeError`, `ValueError`, `KeyError`).
- `Strings` (`strings.dfy`): the string built-ins the module relies on.
  These are `str.find` and `in`, `str.split` with a non-empty separator,
  `str.join`, and ASCII `isupper`, `isalpha` and `lower`. Lemmas prove that
  join undoes split and that no split piece contains the separator.
- `CharCodec` (`char_codec.dfy`): the printable alphabet, the two tables
  and the three conversions.
- `PatentNumbers` (`patent_numbers.dfy`): the three patterns as
  predicates on a prefix of the text, a matcher that tries them in the
  order the alternation does, and the left-to-right scan that `re.sub`
  performs.
- `Normalizers` (`normalizers.dfy`): the filters and rewriters. The three
  loops of the source (`stem_split`, `capitals_process`,
  `punctuation_split`) are methods with loop invariants. Each is proved
  equal to a specification function, and the lemmas are stated about
  those functions.
- `Helpers` (`helpers.dfy`): `check_list` over a value type of scalars,
  lists and dictionaries, and `safeget` as a loop proved against a
  recursive lookup.

## Model

| member | source | states |
|---|---|---|
| CharCodec.AlphabetLayout | patentdata/models/lib/utils.py:14-15 | `string.printable[:-2]` has 98 characters: digits, lowercase letters, uppercase letters, punctuation, then space, tab, newline and carriage return. The position of each character follows from its code point. |
| CharCodec.AlphabetDistinct | patentdata/models/lib/utils.py:14 | No character occurs twice in the alphabet, so enumerating it gives each character one index. |
| CharCodec.AlphabetMembership | patentdata/models/lib/utils.py:14 | A character is in the alphabet exactly when it falls in one of the ranges (digits, letters, punctuation, the four whitespace characters); its index is then the computed position. |
| CharCodec.CharMapEntries | patentdata/models/lib/utils.py:14 | `PRINTABLE_CHAR_MAP` has exactly the alphabet as keys, maps each character to its index in the alphabet, and maps space to 94. |
| CharCodec.CharMapsInverse | patentdata/models/lib/utils.py:14-15 | `PRINTABLE_CHAR_MAP` and `REVERSE_PRINT_CHAR_MAP` are inverse to each other in both directions. |
| CharCodec.String2Int | patentdata/models/lib/utils.py:139-151 | `string2int` gives one integer per character. Unfiltered, or for a supported character, that integer is the character's code point. Filtered, an unsupported character gives 32, the code of space, so every value is the code of a supported character. |
| CharCodec.String2PrintInt | patentdata/models/lib/utils.py:154-162 | `string2printint` gives one index per character. Each index is below 98. A supported character gets its own index; any other character gets the index of space. |
| CharCodec.PrintInt2String | patentdata/models/lib/utils.py:165-167 | `printint2string` succeeds exactly when every integer is in 0..97, and otherwise raises `KeyError`. On success, the k-th character is the alphabet entry at the k-th integer. |
| CharCodec.DecodeEncode | patentdata/models/lib/utils.py:154-167 | Decoding the encoding of a text made only of supported characters gives the text back. |
| CharCodec.EncodeDecode | patentdata/models/lib/utils.py:154-167 | Encoding the decoding of valid indices gives the indices back. |
| CharCodec.RoundTripExactly | patentdata/models/lib/utils.py:154-167 | The encode/decode round trip restores a text if and only if every character of the text is supported. |
| CharCodec.UnsupportedIsSpace | patentdata/models/lib/utils.py:144-162 | An unsupported character encodes as space in both `string2printint` and filtered `string2int`, and it decodes to `" "`. Unfiltered `string2int` keeps its code point. |
| CharCodec.UnsupportedExamples | patentdata/models/lib/utils.py:14 | Vertical tab, form feed (the two characters dropped by `[:-2]`) and `é` are unsupported; `é` encodes like a space. |
| CharCodec.FilteredCodePoints | patentdata/models/lib/utils.py:139-167 | Filtered `string2int` equals the code points of the text after an encode/decode round trip. |
| CharCodec.FilterNeutralOnAlphabet | patentdata/models/lib/utils.py:144-150 | The filter changes nothing on supported text, and unfiltered `string2int` is the code points. |
| CharCodec.FilteredRange | patentdata/models/lib/utils.py:144-148 | Every filtered code point is a supported character, so it lies in 9..126. |
| PatentNumbers.IsApplication | patentdata/models/lib/utils.py:10 | The text starts with a US application number: two digits, `/`, three digits, a comma or whitespace character, three digits; 10 characters in all. |
| PatentNumbers.IsGrant | patentdata/models/lib/utils.py:11 | The text starts with a US grant number: a digit, a comma or whitespace character, three digits, a comma or whitespace character, three digits; 9 characters in all. |
| PatentNumbers.DigitRun | patentdata/models/lib/utils.py:12 | The digit run starting at a position is maximal: only digits, then a non-digit or the end. |
| PatentNumbers.PctLength | patentdata/models/lib/utils.py:12 | The length of the PCT application number the text starts with: `PCT/`, two capitals, the whole run of 2 to 4 digits before `/`, then 6 digits if there are 6, else 5; none if no such number starts there. |
| PatentNumbers.PctLengthIsBacktracking | patentdata/models/lib/utils.py:12 | The greedy PCT matcher agrees with a reference matcher that tries the digit counts in the order regex backtracking does: 4, 3, 2 digits, then 6, 5 digits. |
| PatentNumbers.BacktrackPct | patentdata/models/lib/utils.py:12 | The reference PCT matcher: the first of the six shapes (4, 3, 2 digits, then 6, 5 digits) that fits, in the order a backtracking engine tries them. |
| PatentNumbers.MatchLength | patentdata/models/lib/utils.py:10-12 | A match at the start of the text is at least 9 characters long and lies within the text. |
| PatentNumbers.AlternativesExclusive | patentdata/models/lib/utils.py:10-12 | At most one of the three patterns fits at any position, so the order of the alternatives never changes which one matches. |
| PatentNumbers.ReplacePatentNumbers | patentdata/models/lib/utils.py:128-136 | `re.sub` of the alternation by `_PATENT_NO_`, scanning left to right: where a match starts, the sentinel replaces the matched characters and the scan resumes after them; elsewhere one character is copied and the scan moves on by one. |
| PatentNumbers.ReplaceAfterPlainPrefix | patentdata/models/lib/utils.py:128-136 | A prefix in which no match starts is copied unchanged. |
| PatentNumbers.NoMatchUnchanged | patentdata/models/lib/utils.py:128-136 | A text in which no match starts is returned unchanged. |
| PatentNumbers.ReplaceAfterSentinel | patentdata/models/lib/utils.py:128-136 | The sentinel itself is never matched, and is copied through. |
| PatentNumbers.MatchHasNoUnderscore | patentdata/models/lib/utils.py:10-12 | No patent number contains `_`. |
| PatentNumbers.MatchDependsOnPrefix | patentdata/models/lib/utils.py:10-12 | Whether a match starts depends only on the characters a known match covers; its length may depend on what follows, as `\d{5,6}` is greedy. |
| PatentNumbers.MatchNeedsUnchangedPrefix | patentdata/models/lib/utils.py:10-12 | A match cannot start in front of an underscore that the original text did not have there. |
| PatentNumbers.FirstMatchStart | patentdata/models/lib/utils.py:128-136 | Where the scan first finds a number: no match starts before the returned position, and one starts there unless it is the end of the text. |
| PatentNumbers.UnchangedPrefix | patentdata/models/lib/utils.py:128-136 | The output agrees with the input up to the first position at which a match starts. No match starts before it, and there the output holds the sentinel followed by the redaction of the text after the match. When no match starts anywhere, the output is the input. |
| PatentNumbers.ReplaceIdempotent | patentdata/models/lib/utils.py:128-136 | Applying `replace_patent_numbers` a second time changes nothing. |
| PatentNumbers.GrantInsideLongerNumber | patentdata/models/lib/utils.py:11 | The patterns have no word boundaries: `12,345,678` becomes `1_PATENT_NO_`. |
| PatentNumbers.FileSeparatorIsSpace | patentdata/models/lib/utils.py:11 | `\s` also matches the ASCII separator characters 28 to 31: `1`, U+001C, `234,567` is redacted as a grant number. |
| PatentNumbers.GrantThenDigits | patentdata/models/lib/utils.py:11 | Digits after a grant number are left over: `1,234,567,890` becomes `_PATENT_NO_,890`. |
| PatentNumbers.ReplaceSegment | patentdata/models/lib/utils.py:128-136 | Plain text, then a number, then the rest becomes the plain text, the sentinel, then the redacted rest. |
| PatentNumbers.PlainWord | patentdata/models/lib/utils.py:10-12 | No match starts inside a word without digits and without `P`. |
| PatentNumbers.PctExampleMatches | patentdata/models/lib/utils.py:12 | `PCT/US2019/012345` is matched in full. |
| PatentNumbers.RedactionExample | patentdata/models/lib/utils.py:128-136 | "See 13/123,456 and 7,654,321 and PCT/US2019/012345." has all three numbers replaced by `_PATENT_NO_`. |
| Normalizers.Filter | patentdata/models/lib/utils.py:40 | A comprehension filter keeps only passing tokens, and never more than it was given. |
| Normalizers.FilterMembers | patentdata/models/lib/utils.py:40 | A word is in the result exactly when it was in the input and passes. |
| Normalizers.FilterCounts | patentdata/models/lib/utils.py:40 | A passing token is kept as often as it occurs; a failing one never. |
| Normalizers.FilterAppend | patentdata/models/lib/utils.py:40 | Filtering distributes over concatenation. |
| Normalizers.FilterIdempotent | patentdata/models/lib/utils.py:40 | Filtering twice equals filtering once. |
| Normalizers.FilterSubsequence | patentdata/models/lib/utils.py:40 | The filtered list keeps the original order, as a subsequence of the input. |
| Normalizers.RemoveNonWords | patentdata/models/lib/utils.py:37-40 | Only non-empty alphabetic tokens remain. A token is kept exactly when it is alphabetic, as often as it occurs, and order is kept. |
| Normalizers.RemoveStopwords | patentdata/models/lib/utils.py:43-45 | No stopword remains. A token is kept exactly when it is not a stopword, as often as it occurs, and order is kept. |
| Normalizers.RemoveNonWordsIdempotent | patentdata/models/lib/utils.py:37-40 | `remove_non_words` is idempotent. |
| Normalizers.RemoveStopwordsIdempotent | patentdata/models/lib/utils.py:43-45 | `remove_stopwords` is idempotent. |
| Normalizers.Stem | patentdata/models/lib/utils.py:48-51 | `stem` gives one stem per token, position by position. |
| Normalizers.StemAppend | patentdata/models/lib/utils.py:48-51 | Stemming distributes over concatenation. |
| Normalizers.Lemmatise | patentdata/models/lib/utils.py:54-56 | `lemmatise` is a stub: whatever it is given, it returns `None`. |
| Normalizers.FlatMapAppend | patentdata/models/lib/utils.py:84-97 | Expanding each token of a list, as the loops of the rewriters do, distributes over concatenation. |
| Normalizers.SplitOffStem | patentdata/models/lib/utils.py:67-75 | One token yields one or two tokens, and a token that is its own stem stays whole. |
| Normalizers.SplitOffStemWhole | patentdata/models/lib/utils.py:68-75 | A token that does not contain its stem stays whole. |
| Normalizers.SplitOffStemPieces | patentdata/models/lib/utils.py:68-73 | A token that contains its stem, and is not the stem itself, becomes the stem followed by `token.split(stem)[1]`. That piece starts right after the stem's first occurrence, no occurrence of the stem starts inside it, and it ends at the next occurrence or at the end of the token. |
| Normalizers.PieceAfterUnique | patentdata/models/lib/utils.py:68-73 | Those three conditions fix the piece: only one piece meets them, even when the stem overlaps itself. |
| Normalizers.OverlappingStem | patentdata/models/lib/utils.py:68-73 | With a stem that overlaps itself, `aaaaa` with stem `aa` becomes `aa` followed by the empty piece, as `"aaaaa".split("aa")[1]` is empty. |
| Normalizers.StemSplitPieces | patentdata/models/lib/utils.py:65-76 | The tokens `stem_split` appends, token after token: each token's `SplitOffStem` with its own stem, concatenated in order. |
| Normalizers.StemSplitResult | patentdata/models/lib/utils.py:65-76 | What `stem_split` gives: those tokens when every stem is non-empty, and `ValueError` (the empty separator `token.split` refuses) otherwise. |
| Normalizers.StemSplit | patentdata/models/lib/utils.py:59-76 | `stem_split` returns the tokens the per-token rule gives, in order, and raises `ValueError` when some token's stem is empty. |
| Normalizers.StemSplitLength | patentdata/models/lib/utils.py:59-76 | The output is at least as long as the input and at most twice as long. |
| Normalizers.StemSplitFixedPoints | patentdata/models/lib/utils.py:66-70 | Non-empty tokens that are their own stems come back unchanged. |
| Normalizers.CapitalsOfToken | patentdata/models/lib/utils.py:86-96 | What one token contributes: nothing when it is empty; otherwise `_ALL_CAPITAL_` if its first two characters are capitals, `_CAPITAL_` if only the first is, then the token, lowercased unless it starts or ends with `_`. |
| Normalizers.CapitalsProcess | patentdata/models/lib/utils.py:79-97 | `capitals_process` returns, for each non-empty token in order, an optional case marker and then the token. The token is lowercased unless it starts or ends with `_`. Empty tokens are dropped. |
| Normalizers.CapitalsLength | patentdata/models/lib/utils.py:84-97 | The output has one token per non-empty input token plus one marker per token starting with a capital. |
| Normalizers.NormalisedIsNoMarker | patentdata/models/lib/utils.py:93-96 | A normalised token that was not a marker does not become one. |
| Normalizers.MarkersReadBack | patentdata/models/lib/utils.py:79-97 | The case information is kept. When the input holds no marker tokens, reading the markers back from the output gives each non-empty token's case (plain, capitalised or all capitals) and its normalised form. |
| Normalizers.CapitalsExample | patentdata/models/lib/utils.py:79-97 | `["Apple", "ALL", "dog"]` becomes `["_CAPITAL_", "apple", "_ALL_CAPITAL_", "all", "dog"]`. |
| Normalizers.MarkerExamples | patentdata/models/lib/utils.py:87-92 | `Ab` is marked `_CAPITAL_` and `AB` `_ALL_CAPITAL_`, both lowercased. |
| Normalizers.WithOrLayout | patentdata/models/lib/utils.py:107-110 | After i parts have been emitted, part j stands at position 2j and `or` at every odd position. |
| Normalizers.InterleaveLayout | patentdata/models/lib/utils.py:106-110 | A slashed token's parts with `or` between them: the parts at the even positions, `or` at the odd ones, 2n-1 tokens in all. |
| Normalizers.PunctuationOfToken | patentdata/models/lib/utils.py:104-119 | What one token contributes, tests in the source's order: a token with `/` other than `and/or` gives its `/` pieces with `or` between them; else one with `-` its `-` pieces; else one with an em dash its em-dash pieces; else the token itself. |
| Normalizers.PunctuationSplit | patentdata/models/lib/utils.py:100-125 | `punctuation_split` returns the concatenation of each token's pieces in order. Tests come in the source's order: a slash (not `and/or`), then `-`, then an em dash, otherwise the token whole. |
| Normalizers.AppendWithOr | patentdata/models/lib/utils.py:107-110 | The inner loop appends the parts with `or` between consecutive ones. |
| Normalizers.AppendParts | patentdata/models/lib/utils.py:113-117 | The inner loop appends the parts in order. |
| Normalizers.PunctuationRestores | patentdata/models/lib/utils.py:104-119 | Nothing is lost. A slashed token's parts, joined with `/`, give it back, with `or` at every odd position and at least three tokens. A hyphenated or em-dashed token's parts, joined with the separator, give it back. Any other token, `and/or` included, stays whole. |
| Normalizers.PunctuationLength | patentdata/models/lib/utils.py:100-125 | Every token yields at least one output token. |
| Normalizers.SplitOnce | patentdata/models/lib/utils.py:106 | A token with one separator character splits into the text on either side of it. |
| Normalizers.SlashExample | patentdata/models/lib/utils.py:105-110 | `A/B` becomes `A`, `or`, `B`. |
| Normalizers.HyphenExample | patentdata/models/lib/utils.py:112-114 | `well-known` becomes `well`, `known`. |
| Normalizers.EmDashExample | patentdata/models/lib/utils.py:115-117 | `x—y` becomes `x`, `y`. |
| Normalizers.AndOrKept | patentdata/models/lib/utils.py:104-105 | `and/or` is kept as one token. |
| Strings.FindFrom | patentdata/models/lib/utils.py:68 | Finds the first occurrence at or after a position, or reports that there is none. |
| Strings.Split | patentdata/models/lib/utils.py:68 | `str.split` gives at least one piece, and more than one exactly when the separator occurs. |
| Strings.JoinSplit | patentdata/models/lib/utils.py:106-117 | Joining the pieces of a split with the separator gives the string back. |
| Strings.SplitPiecesFree | patentdata/models/lib/utils.py:68 | No piece of a split contains the separator. |
| Strings.FindChar | patentdata/models/lib/utils.py:105-115 | For a single character, finding it and the `in` test agree. |
| Strings.Lower | patentdata/models/lib/utils.py:94 | `lower` keeps the length and lowercases each character. |
| Strings.LowerIdempotent | patentdata/models/lib/utils.py:94 | Lowercasing leaves no upper-case letter, and lowercasing twice equals lowercasing once. |
| Helpers.CheckList | patentdata/models/lib/utils.py:18-22 | `check_list` always returns a list: a list as it is, anything else as a list of one item. |
| Helpers.CheckListIdempotent | patentdata/models/lib/utils.py:18-22 | A second `check_list` changes nothing, and the result is non-empty unless the input was the empty list. |
| Helpers.Lookup | patentdata/models/lib/utils.py:29-34 | The outcome of indexing with each key in turn: the value reached when the keys run out, `None` at the first dictionary that lacks its key, and `TypeError` when a key is applied to something that is not a dictionary. |
| Helpers.SafeGet | patentdata/models/lib/utils.py:25-34 | `safeget` indexes key by key. It returns `None` at the first missing key, and lets the `TypeError` of indexing a non-dictionary propagate. |
| Helpers.LookupAppend | patentdata/models/lib/utils.py:29-33 | Looking up a path `a + b` equals looking up `b` from wherever `a` leads, if `a` reaches a value, and otherwise equals the outcome of `a`. |
| Helpers.LookupFound | patentdata/models/lib/utils.py:29-34 | A successful lookup went through a dictionary that has the first key, and with one key it returns that entry. |
| Helpers.MissingKey | patentdata/models/lib/utils.py:29-33 | At any depth, a key missing from the dictionary that the earlier keys lead to makes `safeget` return `None`, whatever keys follow it. |
| Helpers.NotADictionary | patentdata/models/lib/utils.py:29-33 | At any depth, a key applied to a value that is not a dictionary raises `TypeError`, which `safeget` does not catch. |
| Helpers.LookupNested | patentdata/models/lib/utils.py:25-34 | A value nested under a path of dictionaries is found by that path. |

## Left out

- The English stopword list and the Porter stemmer come from NLTK and
  are not modelled.
  - `RemoveStopwords` takes the stopword list as a parameter.
  - `Stem` and `StemSplit` take the stemmer as a function parameter.
  - The stemmer is assumed deterministic, and it is created once per
    call in the source.
- `lemmatise` (lines 54-56) is a stub that returns `None`.
  `Normalizers.Lemmatise` returns `None` too and has nothing to prove.
- Character classes are modelled for ASCII only:
  - `isupper`, `isalpha` and `lower` on non-ASCII letters (Python's Unicode
    rules), and `\d` and `\s` on non-ASCII digits and spaces, are not
    modelled.
  - `\s` is the ASCII characters for which `str.isspace()` holds: code
    points 9 to 13, 28 to 31, and space.
  - `isalpha` holds only for non-empty ASCII-letter strings.
  - A Python `str` can hold lone surrogates (U+D800 to U+DFFF), for
    instance in the text given to `string2int`. A Dafny `char` cannot, so
    such text is outside the model.
- `capitals_process` and `punctuation_split` compare with `is not`
  (object identity) at lines 93 and 105. The model compares values.
  - At line 93 the two agree, because single-character strings are
    shared objects.
  - At line 105 the outcome depends on whether the token's string
    object happens to be the literal `"and/or"`. A token built at run
    time may be split into `and`, `or`, `or` in CPython. The model keeps
    `and/or` whole, as the comment at line 104 intends.
- Normalizers.PunctuationSplit: the two inner `for` loops are written as
  separate methods (`AppendWithOr`, `AppendParts`) that the outer loop
  calls, rather than as nested loops in one method.
- The three `REGEX_*` constants are not modelled as regular expressions.
  Each one is a predicate (or, for PCT numbers, a length function) on the
  start of the text, with the same alternation order and backtracking
  outcome. A general regular-expression engine is out of scope.
- Helpers.SafeGet: keys are strings, as documented at line 28. Indexing
  lists by integers and other key types is not modelled. A stored `None`
  (`Null`) and a missing key, which both come back as `None` in the
  source, are `Ok(Some(Null))` and `Ok(None)` in the model.
- Helpers.CheckList: the value type has scalars, lists and dictionaries.
  Tuples and other sequences (also "not a list" in the source) are
  covered only as scalars.
- Integers are unbounded. The code points in the module are at most
  0x10FFFF, so Python's integers never overflow here either.

Behaviour of the code as written that the model keeps:

- the US application pattern has `/` after the first two digits (line 10);
- `capitals_process` leaves a token untouched when it starts *or* ends
  with `_` (line 93), and lowercases every other token, as its docstring
  says (line 80);
- `stem_split` emits the stem and the second split piece even when that
  piece is empty (lines 71-73);
- `printint2string` raises `KeyError` on an index outside 0..97 (line 167).
