/** The index: tokenising names and queries, and searching by a regular expression. */
module FuzzySymbolIndex {
  import opened Bytes
  import opened QueryPattern
  import opened Sequences
  import opened SymbolTokens

  // ---------- tokenize ----------

  datatype TokenizeState = EMPTY | ONE_BIG | BIG_WORD | SMALL_WORD | NUMBER

  function Tokens(text: seq<Byte>): seq<seq<Byte>> {
    WordsFrom(text, 0)
  }

  /** The text from `start` to `i` is the beginning of a word, as the state says. */
  predicate Pending(text: seq<Byte>, state: TokenizeState, start: nat, i: nat) {
    && start < i <= |text|
    && Classify(text[start]) != MISC
    && (forall j :: start < j < i && !(state == BIG_WORD && j == i - 1) ==> !SymbolTokens.Splits(text, j))
    && match state
       case EMPTY => false
       case ONE_BIG => i == start + 1 && Classify(text[start]) == UPPER
       case BIG_WORD => i >= start + 2 && Classify(text[i - 1]) == UPPER && Classify(text[i - 2]) == UPPER
       case SMALL_WORD => Classify(text[i - 1]) == LOWER
       case NUMBER => Classify(text[i - 1]) == DIGIT
  }

  lemma {:induction false} WordEndIs(text: seq<Byte>, i: nat, end: nat)
    requires 0 < i <= end <= |text| && forall j :: i <= j < end ==> !SymbolTokens.Splits(text, j)
    requires end < |text| ==> SymbolTokens.Splits(text, end)
    ensures WordEnd(text, i) == end
    decreases end - i
  {
    if i < end {
      WordEndIs(text, i + 1, end);
    }
  }

  /** A word that ends at `end` is the next token. */
  lemma NextWord(text: seq<Byte>, start: nat, end: nat, result: seq<seq<Byte>>)
    requires start < end <= |text| && Classify(text[start]) != MISC
    requires forall j :: start < j < end ==> !SymbolTokens.Splits(text, j)
    requires end < |text| ==> SymbolTokens.Splits(text, end)
    ensures result + WordsFrom(text, start) == (result + [Lower(text[start..end])]) + WordsFrom(text, end)
  {
    WordEndIs(text, start + 1, end);
    assert WordsFrom(text, start) == [Lower(text[start..end])] + WordsFrom(text, end);
    Assoc(result, [Lower(text[start..end])], WordsFrom(text, end));
  }

  /** The state machine. */
  method Tokenize(text: seq<Byte>) returns (result: seq<seq<Byte>>)
    ensures result == Tokens(text)
  {
    result := [];
    var state := EMPTY;
    var start: nat := 0;
    var i := 0;
    while i < |text|
      invariant i <= |text|
      invariant state == EMPTY ==> result + WordsFrom(text, i) == Tokens(text)
      invariant state != EMPTY ==> Pending(text, state, start, i) && result + WordsFrom(text, start) == Tokens(text)
    {
      result, state, start := TokenizeStep(text, i, result, state, start);
      i := i + 1;
    }
    if state != EMPTY {
      LastWord(text, state, start, result);
      result := result + [Lower(text[start..])];
    }
  }

  /** What is pending at the end is the last word. */
  lemma LastWord(text: seq<Byte>, state: TokenizeState, start: nat, result: seq<seq<Byte>>)
    requires Pending(text, state, start, |text|)
    ensures result + WordsFrom(text, start) == result + [Lower(text[start..])]
  {
    assert text[start..] == text[start..|text|];
    assert state == BIG_WORD ==> !SymbolTokens.Splits(text, |text| - 1);
    NextWord(text, start, |text|, result);
    assert WordsFrom(text, |text|) == [];
  }

  /** A lower case letter: "FOOBar" is "foo" and "bar", not "foob" and "ar". */
  method OnLower(text: seq<Byte>, i: nat, before: seq<seq<Byte>>, state: TokenizeState, start: nat)
    returns (result: seq<seq<Byte>>, next: TokenizeState, newStart: nat)
    requires i < |text| && Classify(text[i]) == LOWER
    requires state == EMPTY ==> before + WordsFrom(text, i) == Tokens(text)
    requires state != EMPTY ==> Pending(text, state, start, i) && before + WordsFrom(text, start) == Tokens(text)
    ensures next != EMPTY && Pending(text, next, newStart, i + 1) && result + WordsFrom(text, newStart) == Tokens(text)
  {
    result, next, newStart := before, state, start;
    match state
    case BIG_WORD =>
      NextWord(text, start, i - 1, before);
      result := before + [Lower(text[start..i - 1])];
      next, newStart := SMALL_WORD, i - 1;
    case ONE_BIG =>
      next := SMALL_WORD;
    case SMALL_WORD =>
    case _ =>
      result := Flush(text, i, before, state, start);
      next, newStart := SMALL_WORD, i;
  }

  method OnUpper(text: seq<Byte>, i: nat, before: seq<seq<Byte>>, state: TokenizeState, start: nat)
    returns (result: seq<seq<Byte>>, next: TokenizeState, newStart: nat)
    requires i < |text| && Classify(text[i]) == UPPER
    requires state == EMPTY ==> before + WordsFrom(text, i) == Tokens(text)
    requires state != EMPTY ==> Pending(text, state, start, i) && before + WordsFrom(text, start) == Tokens(text)
    ensures next != EMPTY && Pending(text, next, newStart, i + 1) && result + WordsFrom(text, newStart) == Tokens(text)
  {
    result, next, newStart := before, state, start;
    match state
    case ONE_BIG =>
      next := BIG_WORD;
    case BIG_WORD =>
    case _ =>
      result := Flush(text, i, before, state, start);
      next, newStart := ONE_BIG, i;
  }

  /** One character, with the flushes that it causes. */
  method TokenizeStep(text: seq<Byte>, i: nat, before: seq<seq<Byte>>, state: TokenizeState, start: nat)
    returns (result: seq<seq<Byte>>, next: TokenizeState, newStart: nat)
    requires i < |text|
    requires state == EMPTY ==> before + WordsFrom(text, i) == Tokens(text)
    requires state != EMPTY ==> Pending(text, state, start, i) && before + WordsFrom(text, start) == Tokens(text)
    ensures next == EMPTY ==> result + WordsFrom(text, i + 1) == Tokens(text)
    ensures next != EMPTY ==> Pending(text, next, newStart, i + 1) && result + WordsFrom(text, newStart) == Tokens(text)
  {
    result, next, newStart := before, state, start;
    match Classify(text[i])
    case MISC =>
      result := Flush(text, i, before, state, start);
      next, newStart := EMPTY, i;
    case LOWER =>
      result, next, newStart := OnLower(text, i, before, state, start);
    case UPPER =>
      result, next, newStart := OnUpper(text, i, before, state, start);
    case DIGIT =>
      if state != NUMBER {
        result := Flush(text, i, before, state, start);
        next, newStart := NUMBER, i;
      }
  }

  /** Flush(I): what is pending is a token, if anything is. */
  method Flush(text: seq<Byte>, i: nat, before: seq<seq<Byte>>, state: TokenizeState, start: nat)
    returns (result: seq<seq<Byte>>)
    requires i < |text|
    requires state == EMPTY ==> before + WordsFrom(text, i) == Tokens(text)
    requires state != EMPTY ==> Pending(text, state, start, i) && before + WordsFrom(text, start) == Tokens(text)
    requires state != EMPTY ==> SymbolTokens.Splits(text, i) && (state == BIG_WORD ==> Classify(text[i]) != LOWER)
    ensures result + WordsFrom(text, i) == Tokens(text)
  {
    result := before;
    if state != EMPTY {
      NextWord(text, start, i, before);
      result := before + [Lower(text[start..i])];
    }
  }

  /** Main result: the tokens are words, and together the letters and digits of the
      text in lower case. */
  lemma TokensAreTheLetters(text: seq<Byte>)
    ensures AreWords(Tokens(text)) && Concatenated(Tokens(text)) == LettersFrom(text, 0)
  {
    WordsAreTheLetters(text, 0);
  }

  // ---------- queryRegexp ----------

  /** "[[:alnum:]]*" */
  const ALNUM_STAR: seq<Byte> := [91, 91, 58, 97, 108, 110, 117, 109, 58, 93, 93, 42]

  function Render(r: Regex): seq<Byte> {
    match r
    case Letter(c) => [c]
    case AlnumStar => ALNUM_STAR
    case Optional(parts) => [40] + RenderAll(parts) + [41, 63]
  }

  function RenderAll(rs: seq<Regex>): seq<Byte> {
    if rs == [] then [] else Render(rs[0]) + RenderAll(rs[1..])
  }

  lemma {:induction false} RenderParts(a: seq<Regex>, b: seq<Regex>)
    ensures RenderAll(a + b) == RenderAll(a) + RenderAll(b)
    decreases |a|
  {
    if a == [] {
      assert a + b == b;
    } else {
      assert (a + b)[1..] == a[1..] + b;
      RenderParts(a[1..], b);
    }
  }

  /** "[[:alnum:]]* " and "([[:alnum:]]* )?" */
  const GAP: seq<Byte> := ALNUM_STAR + [SPACE]
  const OPTIONAL_GAP: seq<Byte> := [40] + GAP + [41, 63]

  lemma RenderGaps()
    ensures RenderAll(NEXT_WORD) == GAP
    ensures Render(Optional(NEXT_WORD)) == OPTIONAL_GAP
  {
    assert [Letter(SPACE)][1..] == [];
    assert RenderAll([Letter(SPACE)]) == [SPACE];
    assert NEXT_WORD[1..] == [Letter(SPACE)];
  }

  /** What is appended for the letters of a word from `j` on. */
  function LettersLeft(q: seq<Byte>, j: nat): seq<Regex>
    requires q != [] && j <= |q|
  {
    if j == 0 then [Letter(q[0])] + OtherLetters(q[1..]) else OtherLetters(q[j..])
  }

  function WordsLeft(tokens: seq<seq<Byte>>, i: nat): seq<Regex>
    requires AreWords(tokens) && i <= |tokens|
  {
    if i == 0 then QueryRegex(tokens) else OtherWords(tokens[i..])
  }

  lemma LetterStep(q: seq<Byte>, j: nat, result: seq<Byte>)
    requires q != [] && j < |q|
    ensures result + RenderAll(LettersLeft(q, j)) ==
            (if j > 0 then result + OPTIONAL_GAP else result) + [q[j]] + RenderAll(LettersLeft(q, j + 1))
  {
    var more := RenderAll(LettersLeft(q, j + 1));
    LetterParts(q, j);
    if j == 0 {
      Assoc(result, [q[j]], more);
    } else {
      Assoc(OPTIONAL_GAP, [q[j]], more);
      Around(result, OPTIONAL_GAP, [q[j]], more);
    }
  }

  lemma LetterParts(q: seq<Byte>, j: nat)
    requires q != [] && j < |q|
    ensures RenderAll(LettersLeft(q, j)) == (if j > 0 then OPTIONAL_GAP + [q[j]] else [q[j]]) + RenderAll(LettersLeft(q, j + 1))
  {
    RenderGaps();
    var more := LettersLeft(q, j + 1);
    if j == 0 {
      RenderParts([Letter(q[0])], more);
      assert RenderAll([Letter(q[0])]) == [q[0]];
    } else {
      assert q[j..][1..] == q[j + 1..];
      RenderParts([Optional(NEXT_WORD), Letter(q[j])], more);
      assert [Optional(NEXT_WORD), Letter(q[j])][1..] == [Letter(q[j])];
      assert RenderAll([Letter(q[j])]) == [q[j]];
    }
  }

  function GapBefore(i: nat): seq<Regex> {
    if i > 0 then NEXT_WORD else []
  }

  lemma WordsLeftIs(tokens: seq<seq<Byte>>, i: nat)
    requires AreWords(tokens) && i < |tokens|
    ensures WordsLeft(tokens, i) == GapBefore(i) + (LettersLeft(tokens[i], 0) + WordsLeft(tokens, i + 1))
  {
    var q, more := tokens[i], WordsLeft(tokens, i + 1);
    assert tokens[i..][1..] == tokens[i + 1..] && tokens[0..] == tokens;
    assert [Letter(q[0])] + (OtherLetters(q[1..]) + more) == LettersLeft(q, 0) + more;
  }

  lemma WordParts(tokens: seq<seq<Byte>>, i: nat)
    requires AreWords(tokens) && i < |tokens|
    ensures RenderAll(WordsLeft(tokens, i)) ==
            (if i > 0 then GAP else []) + (RenderAll(LettersLeft(tokens[i], 0)) + RenderAll(WordsLeft(tokens, i + 1)))
  {
    WordsLeftIs(tokens, i);
    RenderParts(GapBefore(i), LettersLeft(tokens[i], 0) + WordsLeft(tokens, i + 1));
    RenderParts(LettersLeft(tokens[i], 0), WordsLeft(tokens, i + 1));
    RenderGaps();
  }

  lemma Regrouped(result: seq<Byte>, gap: seq<Byte>, a: seq<Byte>, b: seq<Byte>)
    ensures result + (gap + (a + b)) == result + gap + a + b
    ensures gap == [] ==> result + gap == result
  {
  }

  lemma WordStep(tokens: seq<seq<Byte>>, i: nat, result: seq<Byte>)
    requires AreWords(tokens) && i < |tokens|
    ensures result + RenderAll(WordsLeft(tokens, i)) ==
            (if i > 0 then result + GAP else result) + RenderAll(LettersLeft(tokens[i], 0)) + RenderAll(WordsLeft(tokens, i + 1))
  {
    WordParts(tokens, i);
    Regrouped(result, if i > 0 then GAP else [], RenderAll(LettersLeft(tokens[i], 0)), RenderAll(WordsLeft(tokens, i + 1)));
  }

  method AppendWord(before: seq<Byte>, q: seq<Byte>) returns (result: seq<Byte>)
    requires q != []
    ensures result == before + RenderAll(LettersLeft(q, 0))
  {
    result := before;
    var j := 0;
    while j < |q|
      invariant j <= |q| && result + RenderAll(LettersLeft(q, j)) == before + RenderAll(LettersLeft(q, 0))
    {
      LetterStep(q, j, result);
      if j > 0 {
        result := result + OPTIONAL_GAP;
      }
      result := result + [q[j]];
      j := j + 1;
    }
    assert RenderAll(LettersLeft(q, |q|)) == [];
  }

  method QueryRegexp(tokens: seq<seq<Byte>>) returns (result: seq<Byte>)
    requires AreWords(tokens)
    ensures result == RenderAll(QueryRegex(tokens)) == QueryText(tokens)
  {
    QueryIsText(tokens);
    result := [];
    var i := 0;
    while i < |tokens|
      invariant i <= |tokens| && result + RenderAll(WordsLeft(tokens, i)) == RenderAll(QueryRegex(tokens))
    {
      WordStep(tokens, i, result);
      if i > 0 {
        result := result + GAP;
      }
      assert IsWord(tokens[i]);
      result := AppendWord(result, tokens[i]);
      i := i + 1;
    }
    assert RenderAll(WordsLeft(tokens, |tokens|)) == [];
  }

  // ---------- The text of the expression ----------

  function JoinedBy(separator: seq<Byte>, parts: seq<seq<Byte>>): seq<Byte> {
    if parts == [] then []
    else if |parts| == 1 then parts[0]
    else parts[0] + (separator + JoinedBy(separator, parts[1..]))
  }

  function Singles(q: seq<Byte>): seq<seq<Byte>> {
    if q == [] then [] else [[q[0]]] + Singles(q[1..])
  }

  /** Letters that may each begin another token, in words that each do. */
  function QueryText(tokens: seq<seq<Byte>>): seq<Byte> {
    JoinedBy(Ascii("[[:alnum:]]* "), WordTexts(tokens))
  }

  function WordTexts(tokens: seq<seq<Byte>>): seq<seq<Byte>> {
    if tokens == [] then [] else [JoinedBy(Ascii("([[:alnum:]]* )?"), Singles(tokens[0]))] + WordTexts(tokens[1..])
  }

  lemma GapTexts()
    ensures GAP == Ascii("[[:alnum:]]* ")
    ensures OPTIONAL_GAP == Ascii("([[:alnum:]]* )?")
  {
  }

  lemma {:induction false} LettersAreText(q: seq<Byte>, j: nat)
    requires j < |q|
    ensures [q[j]] + RenderAll(LettersLeft(q, j + 1)) == JoinedBy(OPTIONAL_GAP, Singles(q[j..]))
    decreases |q| - j
  {
    assert q[j..][1..] == q[j + 1..];
    if j + 1 < |q| {
      LetterParts(q, j + 1);
      LettersAreText(q, j + 1);
      Assoc(OPTIONAL_GAP, [q[j + 1]], RenderAll(LettersLeft(q, j + 2)));
      assert Singles(q[j..])[1..] == Singles(q[j + 1..]);
    } else {
      assert RenderAll(LettersLeft(q, j + 1)) == [];
    }
  }

  lemma WordIsText(q: seq<Byte>)
    requires q != []
    ensures RenderAll(LettersLeft(q, 0)) == JoinedBy(Ascii("([[:alnum:]]* )?"), Singles(q))
  {
    GapTexts();
    LetterParts(q, 0);
    LettersAreText(q, 0);
    assert q[0..] == q;
  }

  lemma FirstText(tokens: seq<seq<Byte>>, i: nat)
    requires AreWords(tokens) && i < |tokens|
    ensures WordTexts(tokens[i..]) == [RenderAll(LettersLeft(tokens[i], 0))] + WordTexts(tokens[i + 1..])
  {
    assert IsWord(tokens[i]) && tokens[i..][1..] == tokens[i + 1..];
    WordIsText(tokens[i]);
  }

  lemma JoinedStep(separator: seq<Byte>, first: seq<Byte>, more: seq<seq<Byte>>)
    ensures JoinedBy(separator, [first] + more) == if more == [] then first else first + (separator + JoinedBy(separator, more))
  {
    assert ([first] + more)[1..] == more;
  }

  lemma {:induction false} WordsAreText(tokens: seq<seq<Byte>>, i: nat)
    requires AreWords(tokens) && i < |tokens|
    ensures WordsText(tokens, i) == JoinedBy(GAP, WordTexts(tokens[i..]))
    decreases |tokens| - i
  {
    FirstText(tokens, i);
    JoinedStep(GAP, RenderAll(LettersLeft(tokens[i], 0)), WordTexts(tokens[i + 1..]));
    if i + 1 < |tokens| {
      WordsAreText(tokens, i + 1);
      WordParts(tokens, i + 1);
      FirstText(tokens, i + 1);
    } else {
      assert RenderAll(WordsLeft(tokens, i + 1)) == [];
    }
  }

  /** The text of the words from `i` on, without what comes before the first of them. */
  function WordsText(tokens: seq<seq<Byte>>, i: nat): seq<Byte>
    requires AreWords(tokens) && i < |tokens|
  {
    assert IsWord(tokens[i]);
    RenderAll(LettersLeft(tokens[i], 0)) + RenderAll(WordsLeft(tokens, i + 1))
  }

  /** The expression, spelled out. */
  lemma QueryIsText(tokens: seq<seq<Byte>>)
    requires AreWords(tokens)
    ensures RenderAll(QueryRegex(tokens)) == QueryText(tokens)
  {
    GapTexts();
    assert tokens[0..] == tokens;
    if tokens != [] {
      WordsAreText(tokens, 0);
      WordParts(tokens, 0);
      assert [] + WordsText(tokens, 0) == WordsText(tokens, 0);
    }
  }

  // ---------- The index ----------

  datatype Symbol = Symbol(name: seq<Byte>, signals: int)

  /** llvm::Regex: whether a pattern is found in a text. */
  type RegexMatch = (seq<Byte>, seq<Byte>) -> bool

  const CARET: Byte := 94

  /** Parts of the kinds that queries are made of. */
  predicate IsPlain(r: Regex) {
    match r
    case Letter(c) => IsWordChar(c) || c == SPACE
    case AlnumStar => true
    case Optional(parts) => parts != [] && forall i :: 0 <= i < |parts| ==> IsPlain(parts[i])
  }

  /** An anchored pattern is found where it matches a beginning of the text. */
  ghost predicate IsRegexLibrary(regexMatch: RegexMatch) {
    forall rs, t :: AllPlain(rs) ==>
      (regexMatch([CARET] + RenderAll(rs), t) <==> MatchesStart(rs, t))
  }

  predicate AllPlain(rs: seq<Regex>) {
    forall i :: 0 <= i < |rs| ==> IsPlain(rs[i])
  }

  lemma {:induction false} OtherLettersArePlain(q: seq<Byte>)
    requires forall i :: 0 <= i < |q| ==> IsWordChar(q[i])
    ensures AllPlain(OtherLetters(q))
  {
    if q != [] {
      OtherLettersArePlain(q[1..]);
    }
  }

  lemma {:induction false} OtherWordsArePlain(qs: seq<seq<Byte>>)
    requires AreWords(qs)
    ensures AllPlain(OtherWords(qs))
  {
    if qs != [] {
      assert IsWord(qs[0]);
      OtherWordsArePlain(qs[1..]);
      OtherLettersArePlain(qs[0][1..]);
    }
  }

  lemma QueryIsPlain(qs: seq<seq<Byte>>)
    requires AreWords(qs)
    ensures AllPlain(QueryRegex(qs))
  {
    if qs != [] {
      assert IsWord(qs[0]);
      OtherWordsArePlain(qs[1..]);
      OtherLettersArePlain(qs[0][1..]);
    }
  }

  /** The symbols whose tokens the query fits, in their order. */
  ghost function Hits(query: seq<Byte>, symbols: seq<Symbol>): seq<Symbol> {
    if symbols == [] then []
    else Hits(query, symbols[..|symbols| - 1]) +
         if Fits(Tokens(query), Tokens(symbols[|symbols| - 1].name)) then [symbols[|symbols| - 1]] else []
  }

  /** A symbol is found as often as it is listed, exactly when the query fits it. */
  lemma {:induction false} HitsExactly(query: seq<Byte>, symbols: seq<Symbol>, x: Symbol)
    ensures multiset(Hits(query, symbols))[x] == if Fits(Tokens(query), Tokens(x.name)) then multiset(symbols)[x] else 0
  {
    if symbols != [] {
      var before, last := symbols[..|symbols| - 1], symbols[|symbols| - 1];
      HitsExactly(query, before, x);
      assert symbols == before + [last];
    }
  }

  class MemSymbolIndex {
    const symbols: seq<Symbol>
    const entries: seq<seq<Byte>>

    predicate Valid() {
      |entries| == |symbols| && forall i :: 0 <= i < |symbols| ==> entries[i] == Joined(Tokens(symbols[i].name))
    }

    constructor (symbols: seq<Symbol>)
      ensures Valid() && this.symbols == symbols
    {
      var keys: seq<seq<Byte>> := [];
      var i := 0;
      while i < |symbols|
        invariant i <= |symbols| && |keys| == i
        invariant forall j :: 0 <= j < i ==> keys[j] == Joined(Tokens(symbols[j].name))
      {
        var tokens := Tokenize(symbols[i].name);
        keys := keys + [Joined(tokens)];
        i := i + 1;
      }
      this.symbols := symbols;
      entries := keys;
    }

    /** Main result: exactly the symbols that the query fits are found. */
    method Search(query: seq<Byte>, regexMatch: RegexMatch) returns (results: seq<Symbol>)
      requires Valid() && IsRegexLibrary(regexMatch)
      ensures results == Hits(query, symbols)
    {
      var tokens := Tokenize(query);
      TokensAreTheLetters(query);
      QueryIsPlain(tokens);
      var text := QueryRegexp(tokens);
      var pattern := [CARET] + text;
      results := [];
      var i := 0;
      while i < |symbols|
        invariant i <= |symbols| && results == Hits(query, symbols[..i])
      {
        assert symbols[..i + 1][..i] == symbols[..i];
        TokensAreTheLetters(symbols[i].name);
        QueryMatchesExactly(tokens, Tokens(symbols[i].name));
        if regexMatch(pattern, entries[i]) {
          results := results + [symbols[i]];
        }
        i := i + 1;
      }
      assert symbols[..i] == symbols;
    }
  }
}
