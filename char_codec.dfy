/**
 * The two character codecs of the utilities module: characters to code
 * points (`string2int`) and characters to positions in a fixed alphabet
 * and back (`string2printint`, `printint2string`).
 *
 * The alphabet is Python's `string.printable` without its last two
 * characters: digits, ASCII letters (lower case first), the 32 ASCII
 * punctuation characters in code order, then space, tab, newline and
 * carriage return. Vertical tab and form feed are the two dropped.
 */
module CharCodec {
  import opened Wrappers

  /** The `n` characters with the consecutive codes `first`, `first + 1`, … */
  function CharRange(first: int, n: nat): (r: string)
    requires 0 <= first && first + n <= 128
    ensures |r| == n
    ensures forall k :: 0 <= k < n ==> r[k] as int == first + k
  {
    seq(n, k requires 0 <= k < n => (first + k) as char)
  }

  /** `string.digits`, `string.ascii_lowercase`, `string.ascii_uppercase`. */
  const Digits: string := CharRange('0' as int, 10)
  const AsciiLowercase: string := CharRange('a' as int, 26)
  const AsciiUppercase: string := CharRange('A' as int, 26)
  /** `string.punctuation`: codes 33–47, 58–64, 91–96 and 123–126. */
  const Punctuation: string := CharRange(33, 15) + CharRange(58, 7) + CharRange(91, 6) + CharRange(123, 4)
  /** `string.whitespace`: space, tab, newline, carriage return, vertical tab, form feed. */
  const Whitespace: string := " \t\n\r" + [11 as char, 12 as char]
  /** `string.printable`. */
  const Printable: string := Digits + AsciiLowercase + AsciiUppercase + Punctuation + Whitespace

  /** `string.printable[:-2]`: the 98 characters the index codec supports. */
  const Alphabet: string := Printable[..|Printable| - 2]

  /** The index of the space character, used for every unsupported character. */
  const SpaceIndex: nat := 94

  /** Where a supported character sits in the alphabet, computed from its code. */
  function Position(c: char): (r: Option<nat>)
    ensures r.Some? ==> r.value < 98
  {
    var n := c as int;
    if 48 <= n <= 57 then Some(n - 48)
    else if 97 <= n <= 122 then Some(n - 97 + 10)
    else if 65 <= n <= 90 then Some(n - 65 + 36)
    else if 33 <= n <= 47 then Some(n - 33 + 62)
    else if 58 <= n <= 64 then Some(n - 58 + 77)
    else if 91 <= n <= 96 then Some(n - 91 + 84)
    else if 123 <= n <= 126 then Some(n - 123 + 90)
    else if c == ' ' then Some(94)
    else if c == '\t' then Some(95)
    else if c == '\n' then Some(96)
    else if c == '\r' then Some(97)
    else None
  }

  lemma AlphabetLayout()
    ensures |Alphabet| == 98
    ensures forall k :: 0 <= k < 98 ==> Position(Alphabet[k]) == Some(k)
  {
    var letters := Digits + AsciiLowercase + AsciiUppercase;
    assert Printable == letters + Punctuation + Whitespace;
    forall k | 0 <= k < 98 ensures Position(Alphabet[k]) == Some(k) {
      assert Alphabet[k] == Printable[k];
      if k < 62 {
        assert Printable[k] == letters[k];
        if k < 10 {
          assert letters[k] == Digits[k];
        } else if k < 36 {
          assert letters[k] == AsciiLowercase[k - 10];
        } else {
          assert letters[k] == AsciiUppercase[k - 36];
        }
      } else if k < 94 {
        assert Printable[k] == Punctuation[k - 62];
      } else {
        assert Printable[k] == Whitespace[k - 94];
      }
    }
  }

  /** The alphabet lists each character once, and the positions find them. */
  lemma AlphabetDistinct()
    ensures forall i, j :: 0 <= i < j < |Alphabet| ==> Alphabet[i] != Alphabet[j]
  {
    AlphabetLayout();
  }

  lemma AlphabetMembership(c: char)
    ensures c in Alphabet <==> Position(c).Some?
    ensures c in Alphabet ==> Position(c).value < |Alphabet| && Alphabet[Position(c).value] == c
  {
    AlphabetLayout();
    if c in Alphabet {
      var k :| 0 <= k < |Alphabet| && Alphabet[k] == c;
      assert Position(c) == Some(k);
    } else {
      PositionFound(c);
    }
  }

  /** A computed position holds the character it was computed from. */
  lemma PositionFound(c: char)
    ensures Position(c).Some? ==> Position(c).value < |Alphabet| && Alphabet[Position(c).value] == c
  {
    AlphabetLayout();
    if Position(c).Some? {
      var k := Position(c).value;
      assert Position(Alphabet[k]) == Some(k);
      PositionInjective(Alphabet[k], c);
    }
  }

  /** Different characters never share a position. */
  lemma PositionInjective(a: char, b: char)
    ensures Position(a).Some? && Position(a) == Position(b) ==> a == b
  {
  }

  /** The first index at which `c` occurs in `s`. */
  function IndexOf(s: string, c: char): (k: nat)
    requires c in s
    ensures k < |s| && s[k] == c
    ensures forall j :: 0 <= j < k ==> s[j] != c
  {
    if s[0] == c then 0 else 1 + IndexOf(s[1..], c)
  }

  /** `PRINTABLE_CHAR_MAP`: each alphabet character to its position. */
  const PrintableCharMap: map<char, nat> := map c | c in Alphabet :: IndexOf(Alphabet, c)

  /** `REVERSE_PRINT_CHAR_MAP`: each position to its alphabet character. */
  const ReversePrintCharMap: map<int, char> := map i | 0 <= i < |Alphabet| :: Alphabet[i]

  /** What the character table holds, the space's entry included. */
  lemma CharMapEntries()
    ensures forall c :: c in PrintableCharMap <==> c in Alphabet
    ensures forall c :: c in PrintableCharMap ==> PrintableCharMap[c] < |Alphabet| && Alphabet[PrintableCharMap[c]] == c
    ensures ' ' in PrintableCharMap && PrintableCharMap[' '] == SpaceIndex
  {
    AlphabetLayout();
    AlphabetDistinct();
    assert Alphabet[SpaceIndex] == ' ';
  }

  /** The two tables are inverse to each other. */
  lemma CharMapsInverse()
    ensures forall c :: c in PrintableCharMap ==> PrintableCharMap[c] in ReversePrintCharMap && ReversePrintCharMap[PrintableCharMap[c]] == c
    ensures forall i :: i in ReversePrintCharMap ==> ReversePrintCharMap[i] in PrintableCharMap && PrintableCharMap[ReversePrintCharMap[i]] == i
  {
    AlphabetDistinct();
  }

  /** Every character of `text` is one the index codec supports. */
  predicate InAlphabet(text: string) {
    forall k :: 0 <= k < |text| ==> text[k] in Alphabet
  }

  /**
   * `string2int`: each character's code point; with `filterPrintable`,
   * an unsupported character counts as a space.
   */
  function String2Int(text: string, filterPrintable: bool := true): (r: seq<int>)
    ensures |r| == |text|
    ensures forall k :: 0 <= k < |text| && (!filterPrintable || text[k] in Alphabet) ==> r[k] == text[k] as int
    ensures forall k :: 0 <= k < |text| && filterPrintable && text[k] !in Alphabet ==> r[k] == ' ' as int
    ensures filterPrintable ==> forall k :: 0 <= k < |text| ==> (r[k] as char) in Alphabet
  {
    AlphabetMembership(' ');
    if filterPrintable then
      seq(|text|, k requires 0 <= k < |text| => if text[k] in Alphabet then text[k] as int else ' ' as int)
    else
      seq(|text|, k requires 0 <= k < |text| => text[k] as int)
  }

  /** `string2printint`: each character's position in the alphabet, a space's for an unsupported one. */
  function String2PrintInt(text: string): (r: seq<nat>)
    ensures |r| == |text|
    ensures forall k :: 0 <= k < |r| ==> r[k] < |Alphabet|
    ensures forall k :: 0 <= k < |r| && text[k] in Alphabet ==> Alphabet[r[k]] == text[k]
    ensures forall k :: 0 <= k < |r| && text[k] !in Alphabet ==> r[k] == SpaceIndex
  {
    CharMapEntries();
    seq(|text|, k requires 0 <= k < |text| =>
      if text[k] in PrintableCharMap then PrintableCharMap[text[k]] else PrintableCharMap[' '])
  }

  /**
   * `printint2string`: the characters at the given positions, in order;
   * a position outside the alphabet makes the table lookup raise `KeyError`.
   */
  function PrintInt2String(indices: seq<int>): (r: Result<string>)
    ensures r.Ok? <==> forall k :: 0 <= k < |indices| ==> 0 <= indices[k] < |Alphabet|
    ensures r.Raise? ==> r.error == KeyError
    ensures r.Ok? ==> |r.value| == |indices|
    ensures r.Ok? ==> forall k :: 0 <= k < |indices| ==> r.value[k] == Alphabet[indices[k]]
  {
    if forall k :: 0 <= k < |indices| ==> indices[k] in ReversePrintCharMap then
      Ok(seq(|indices|, k requires 0 <= k < |indices| => ReversePrintCharMap[indices[k]]))
    else
      Raise(KeyError)
  }

  /** Decoding the encoding of a supported text gives the text back. */
  lemma DecodeEncode(text: string)
    requires InAlphabet(text)
    ensures PrintInt2String(String2PrintInt(text)) == Ok(text)
  {
    var r := PrintInt2String(String2PrintInt(text));
    assert r.value == text;
  }

  /** Encoding the decoding of in-range positions gives the positions back. */
  lemma EncodeDecode(indices: seq<int>)
    requires forall k :: 0 <= k < |indices| ==> 0 <= indices[k] < |Alphabet|
    ensures PrintInt2String(indices).Ok?
    ensures String2PrintInt(PrintInt2String(indices).value) == indices
  {
    AlphabetDistinct();
    var r := String2PrintInt(PrintInt2String(indices).value);
    forall k | 0 <= k < |indices| ensures r[k] == indices[k] {
      assert Alphabet[r[k]] == Alphabet[indices[k]];
    }
  }

  /** The index round trip restores a text exactly when every character is supported. */
  lemma RoundTripExactly(text: string)
    ensures PrintInt2String(String2PrintInt(text)) == Ok(text) <==> InAlphabet(text)
  {
    AlphabetLayout();
    if InAlphabet(text) {
      DecodeEncode(text);
    } else {
      var k :| 0 <= k < |text| && text[k] !in Alphabet;
      assert PrintInt2String(String2PrintInt(text)).value[k] == ' ';
      assert ' ' in Alphabet;
    }
  }

  /** An unsupported character is encoded as a space in both codecs, and decodes to a space. */
  lemma UnsupportedIsSpace(c: char)
    requires c !in Alphabet
    ensures String2PrintInt([c]) == String2PrintInt([' ']) == [SpaceIndex]
    ensures PrintInt2String(String2PrintInt([c])) == Ok(" ")
    ensures String2Int([c]) == String2Int([' ']) == [32]
    ensures String2Int([c], false) == [c as int]
  {
    AlphabetLayout();
    assert Alphabet[SpaceIndex] == ' ';
    assert PrintInt2String([SpaceIndex]).value == " ";
  }

  /** Vertical tab, form feed and a non-ASCII letter are among the unsupported characters. */
  lemma UnsupportedExamples()
    ensures 11 as char !in Alphabet && 12 as char !in Alphabet && 'é' !in Alphabet
    ensures String2PrintInt("é") == String2PrintInt(" ")
  {
    AlphabetMembership(11 as char);
    AlphabetMembership(12 as char);
    AlphabetMembership('é');
    UnsupportedIsSpace('é');
  }

  /** Filtered code points are those of the text after its index round trip, which replaces unsupported characters by spaces. */
  lemma FilteredCodePoints(text: string)
    ensures PrintInt2String(String2PrintInt(text)).Ok?
    ensures String2Int(text) == String2Int(PrintInt2String(String2PrintInt(text)).value, false)
  {
    AlphabetLayout();
    assert Alphabet[SpaceIndex] == ' ';
  }

  /** On a supported text filtering changes nothing; unfiltered code points are the characters' own. */
  lemma FilterNeutralOnAlphabet(text: string)
    ensures InAlphabet(text) ==> String2Int(text) == String2Int(text, false)
    ensures forall k :: 0 <= k < |text| ==> String2Int(text, false)[k] == text[k] as int
  {
  }

  /** Filtered code points are the codes of alphabet characters: tab (9) up to tilde (126). */
  lemma FilteredRange(text: string)
    ensures forall k :: 0 <= k < |text| ==> (String2Int(text)[k] as char) in Alphabet
    ensures forall k :: 0 <= k < |text| ==> 9 <= String2Int(text)[k] <= 126
  {
    AlphabetLayout();
    forall k | 0 <= k < |text| ensures (String2Int(text)[k] as char) in Alphabet && 9 <= String2Int(text)[k] <= 126 {
      var c := String2Int(text)[k] as char;
      assert c == text[k] || c == ' ';
      assert ' ' == Alphabet[SpaceIndex];
      AlphabetMembership(c);
    }
  }
}
