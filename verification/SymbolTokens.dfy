/** The words of a symbol's name. */
module SymbolTokens {
  import opened Bytes
  import opened Sequences

  datatype CharType = UPPER | LOWER | DIGIT | MISC

  function Classify(c: Byte): CharType {
    if 65 <= c <= 90 then UPPER else if 97 <= c <= 122 then LOWER else if 48 <= c <= 57 then DIGIT else MISC
  }

  function ToLower(c: Byte): Byte {
    if Classify(c) == UPPER then c + 32 else c
  }

  function Lower(s: seq<Byte>): (r: seq<Byte>)
    ensures |r| == |s| && forall i :: 0 <= i < |s| ==> r[i] == ToLower(s[i])
  {
    seq(|s|, i requires 0 <= i < |s| => ToLower(s[i]))
  }

  /** Two characters of a word next to each other belong to different words: a word
      is digits, lower case, or upper case, or one capital and lower case. The last
      capital before lower case begins a new word. */
  predicate Splits(text: seq<Byte>, i: nat)
    requires 0 < i < |text|
  {
    match (Classify(text[i - 1]), Classify(text[i]))
    case (LOWER, LOWER) => false
    case (DIGIT, DIGIT) => false
    case (UPPER, LOWER) => false
    case (UPPER, UPPER) => i + 1 < |text| && Classify(text[i + 1]) == LOWER
    case _ => true
  }

  /** Where the word ends that has a character before `i`. */
  function WordEnd(text: seq<Byte>, i: nat): (end: nat)
    requires 0 < i <= |text|
    ensures i <= end <= |text|
    ensures end < |text| ==> Splits(text, end)
    ensures forall j :: i <= j < end ==> !Splits(text, j)
    decreases |text| - i
  {
    if i == |text| || Splits(text, i) then i else WordEnd(text, i + 1)
  }

  /** The words from `i` on, in lower case. */
  function WordsFrom(text: seq<Byte>, i: nat): seq<seq<Byte>>
    requires i <= |text|
    decreases |text| - i
  {
    if i == |text| then []
    else if Classify(text[i]) == MISC then WordsFrom(text, i + 1)
    else [Lower(text[i..WordEnd(text, i + 1)])] + WordsFrom(text, WordEnd(text, i + 1))
  }

  /** The letters and digits from `i` on, in lower case. */
  function LettersFrom(text: seq<Byte>, i: nat): seq<Byte>
    requires i <= |text|
    decreases |text| - i
  {
    if i == |text| then []
    else if Classify(text[i]) == MISC then LettersFrom(text, i + 1)
    else [ToLower(text[i])] + LettersFrom(text, i + 1)
  }

  function Concatenated(words: seq<seq<Byte>>): seq<Byte> {
    if words == [] then [] else words[0] + Concatenated(words[1..])
  }

  /** Lower case letters and digits. */
  predicate IsWordChar(c: Byte) {
    Classify(c) == LOWER || Classify(c) == DIGIT
  }

  predicate IsWord(word: seq<Byte>) {
    word != [] && forall i :: 0 <= i < |word| ==> IsWordChar(word[i])
  }

  predicate AreWords(words: seq<seq<Byte>>) {
    forall i :: 0 <= i < |words| ==> IsWord(words[i])
  }

  /** There is no other character inside a word. */
  lemma {:induction false} WordHasNoMisc(text: seq<Byte>, start: nat, i: nat)
    requires start < i <= |text| && Classify(text[start]) != MISC
    requires forall j :: start < j < i ==> !Splits(text, j)
    ensures forall j :: start <= j < i ==> Classify(text[j]) != MISC
  {
    if start + 1 < i {
      WordHasNoMisc(text, start, i - 1);
      assert !Splits(text, i - 1);
    }
  }

  lemma {:induction false} LettersOfWord(text: seq<Byte>, start: nat, end: nat)
    requires start <= end <= |text| && forall j :: start <= j < end ==> Classify(text[j]) != MISC
    ensures LettersFrom(text, start) == Lower(text[start..end]) + LettersFrom(text, end)
    decreases end - start
  {
    if start == end {
      assert Lower(text[start..end]) == [];
    } else {
      LettersOfWord(text, start + 1, end);
      LowerOneMore(text, start, end);
      Assoc([ToLower(text[start])], Lower(text[start + 1..end]), LettersFrom(text, end));
    }
  }

  lemma LowerOneMore(text: seq<Byte>, start: nat, end: nat)
    requires start < end <= |text|
    ensures Lower(text[start..end]) == [ToLower(text[start])] + Lower(text[start + 1..end])
  {
  }

  /** The words are not empty, in lower case, and together they are the letters and
      digits of the text. */
  lemma {:induction false} WordsAreTheLetters(text: seq<Byte>, i: nat)
    requires i <= |text|
    ensures AreWords(WordsFrom(text, i))
    ensures Concatenated(WordsFrom(text, i)) == LettersFrom(text, i)
    decreases |text| - i
  {
    if i == |text| {
    } else if Classify(text[i]) == MISC {
      WordsAreTheLetters(text, i + 1);
    } else {
      var end := WordEnd(text, i + 1);
      WordsAreTheLetters(text, end);
      WordHasNoMisc(text, i, end);
      LettersOfWord(text, i, end);
      assert IsWord(Lower(text[i..end]));
    }
  }
}
