/**
 How FuzzyMatcher segments and scores: character types and roles from the packed
 tables, the legality of a match, and the gain of each step of an alignment.
 Text is bytes.
 */
module FuzzyScoring {
  import opened Bytes

  const MAX_PAT := 63
  const MAX_WORD := 127
  const AWFUL_SCORE := -8192
  const PERFECT_BONUS := 3

  predicate IsAwful(score: int) {
    score < AWFUL_SCORE / 2
  }

  function Lower(c: Byte): Byte {
    if 65 <= c <= 90 then c + 32 else c
  }

  // ---------- Packed lookup tables ----------

  const EMPTY := 0
  const LOWER := 1
  const UPPER := 2
  const PUNCTUATION := 3

  const UNKNOWN := 0
  const TAIL := 1
  const HEAD := 2
  const SEPARATOR := 3

  /** The table CharTypes, run-length coded. */
  function CharTypes(i: int): Byte
    requires 0 <= i < 64
  {
    if i < 8 then 0x00
    else if i < 12 then 0xff
    else if i < 14 then 0x55
    else if i == 14 then 0xf5
    else if i == 15 then 0xff
    else if i == 16 then 0xab
    else if i < 22 then 0xaa
    else if i == 22 then 0xea
    else if i == 23 then 0xff
    else if i == 24 then 0x57
    else if i < 30 then 0x55
    else if i == 30 then 0xd5
    else if i == 31 then 0x3f
    else 0x55
  }

  /** The table CharRoles. */
  function CharRoles(i: int): Byte
    requires 0 <= i < 16
  {
    [0x00, 0xaa, 0xaa, 0xff,
     0x00, 0x55, 0xaa, 0xff,
     0x00, 0x55, 0x59, 0xff,
     0x00, 0xaa, 0xaa, 0xff][i]
  }

  /** Two bits of a packed byte. */
  function Unpack(data: Byte, offset: int): int
    requires 0 <= offset < 4
  {
    match offset
    case 0 => data % 4
    case 1 => data / 4 % 4
    case 2 => data / 16 % 4
    case _ => data / 64 % 4
  }

  function TypeOf(c: Byte): int {
    Unpack(CharTypes(c / 4), c % 4)
  }

  /** Total, so that it can be a function value; keys have six bits. */
  function RoleOf(types: int): int {
    if 0 <= types < 64 then Unpack(CharRoles(types / 4), types % 4) else UNKNOWN
  }

  /** The type table classifies bytes as its comments say. */
  lemma TypeMeaning(c: Byte)
    ensures TypeOf(c) ==
            if c < 32 || c == 127 then EMPTY
            else if 97 <= c <= 122 || 48 <= c <= 57 || c >= 128 then LOWER
            else if 65 <= c <= 90 then UPPER
            else PUNCTUATION
  {
  }

  /** The role table: a character starts a segment at the beginning of a word,
      after a separator, when an upper-case letter follows a lower-case one, and
      when an upper-case letter stands between an upper and a lower-case one. */
  lemma RoleMeaning(prev: int, curr: int, next: int)
    requires 0 <= prev < 4 && 0 <= curr < 4 && 0 <= next < 4
    ensures RoleOf(prev * 16 + curr * 4 + next) ==
            if curr == EMPTY then UNKNOWN
            else if curr == PUNCTUATION then SEPARATOR
            else if prev == EMPTY || prev == PUNCTUATION then HEAD
            else if curr == UPPER && (prev == LOWER || next == LOWER) then HEAD
            else TAIL
  {
  }

  // ---------- Segmentation ----------

  /** The type of character `i`; Empty before the start and after the end. */
  function TypeAt(typeOf: Byte -> int, text: seq<Byte>, i: int): int {
    if 0 <= i < |text| then typeOf(text[i]) else EMPTY
  }

  /** A character's role, looked up by the types of its left neighbour, itself
      and its right neighbour. */
  function RoleAt(typeOf: Byte -> int, roleOf: int -> int, text: seq<Byte>, i: int): int {
    roleOf(TypeAt(typeOf, text, i - 1) * 16 + TypeAt(typeOf, text, i) * 4 + TypeAt(typeOf, text, i + 1))
  }

  function RolesBy(typeOf: Byte -> int, roleOf: int -> int, text: seq<Byte>): seq<int> {
    seq(|text|, i => RoleAt(typeOf, roleOf, text, i))
  }

  /** The types of the first n characters. */
  function TypesUpTo(typeOf: Byte -> int, text: seq<Byte>, n: nat): set<int>
    requires n <= |text|
  {
    if n == 0 then {} else TypesUpTo(typeOf, text, n - 1) + {typeOf(text[n - 1])}
  }

  /** A text with its segmentation: what init and the constructor compute. The
      source keeps `types`, the types that occur, as a bit mask. */
  datatype Text = Text(chars: seq<Byte>, roles: seq<int>, types: set<int>)

  function Analyse(text: seq<Byte>): (t: Text)
    ensures t.chars == text && |t.roles| == |text|
  {
    Text(text, RolesBy(TypeOf, RoleOf, text), TypesUpTo(TypeOf, text, |text|))
  }

  // ---------- Scoring ----------

  datatype Action = Miss | Match

  /** The truncated pattern and word. */
  datatype Problem = Problem(pat: Text, word: Text) {
    ghost predicate Valid() {
      |pat.roles| == |pat.chars| && |word.roles| == |word.chars|
    }

    predicate InPattern(p: int) {
      0 <= p < |pat.chars| && p < |pat.roles|
    }

    predicate InWord(w: int) {
      0 <= w < |word.chars| && w < |word.roles|
    }
  }

  predicate SameLetter(c: Problem, p: int, w: int)
    requires c.InPattern(p) && c.InWord(w)
  {
    Lower(c.pat.chars[p]) == Lower(c.word.chars[w])
  }

  predicate AllowMatch(c: Problem, p: int, w: int)
    requires c.InPattern(p) && c.InWord(w)
  {
    && SameLetter(c, p, w)
    && (p > 0 || c.word.roles[w] != TAIL || (c.word.chars[w] != Lower(c.word.chars[w]) && LOWER in c.word.types))
  }

  function SkipPenalty(c: Problem, w: int, last: Action): (s: int)
    requires c.InWord(w)
    ensures 0 <= s <= 3
  {
    (if c.word.roles[w] == HEAD then 1 else 0) + (if last == Match then 2 else 0)
  }

  function MatchBonus(c: Problem, p: int, w: int, last: Action): (s: int)
    requires c.InPattern(p) && c.InWord(w)
    ensures -4 <= s <= PERFECT_BONUS
  {
    var patHead, wordHead, wordTail := c.pat.roles[p] == HEAD, c.word.roles[w] == HEAD, c.word.roles[w] == TAIL;
    var sameCase := c.pat.chars[p] == c.word.chars[w];
    1 + (if p == w then 1 else 0)
    + (if (sameCase && (UPPER in c.pat.types || p == w)) || (patHead && wordHead) then 1 else 0)
    - (if wordTail && p > 0 && last == Miss then 3 else 0)
    - (if patHead && wordTail then 1 else 0)
    - (if p == 0 && wordTail then 4 else 0)
  }
}
