/**
 Where names are cut into words, told from the pieces: a name that is put together from
 pieces of the usual kinds has those pieces as its tokens.
 */
module SymbolSegments {
  import opened Bytes
  import opened Sequences
  import opened SymbolTokens
  import opened FuzzySymbolIndex

  predicate IsBig(c: Byte) {
    'A' <= c as char <= 'Z'
  }

  predicate IsSmall(c: Byte) {
    'a' <= c as char <= 'z'
  }

  predicate IsFigure(c: Byte) {
    '0' <= c as char <= '9'
  }

  predicate AllBig(s: seq<Byte>) {
    forall i :: 0 <= i < |s| ==> IsBig(s[i])
  }

  predicate AllSmall(s: seq<Byte>) {
    forall i :: 0 <= i < |s| ==> IsSmall(s[i])
  }

  predicate AllFigures(s: seq<Byte>) {
    forall i :: 0 <= i < |s| ==> IsFigure(s[i])
  }

  /** A separator is one character that is no letter and no digit. */
  predicate IsSeparator(s: seq<Byte>) {
    |s| == 1 && !IsBig(s[0]) && !IsSmall(s[0]) && !IsFigure(s[0])
  }

  /** A capital and small letters. */
  predicate IsCapitalized(s: seq<Byte>) {
    |s| >= 2 && IsBig(s[0]) && AllSmall(s[1..])
  }

  /** foo, FOO, Foo or 123. */
  predicate IsWordPiece(s: seq<Byte>) {
    s != [] && (AllSmall(s) || AllBig(s) || IsCapitalized(s) || AllFigures(s))
  }

  /** The second piece does not go on with the first: after small letters comes no small
      letter, after a digit no digit, after a capital no small letter, and another capital
      only when small letters follow it. */
  predicate Apart(a: seq<Byte>, b: seq<Byte>)
    requires a != [] && b != []
  {
    var last := a[|a| - 1];
    && (IsSmall(last) ==> !IsSmall(b[0]))
    && (IsFigure(last) ==> !IsFigure(b[0]))
    && (IsBig(last) ==> !IsSmall(b[0]) && (IsBig(b[0]) ==> IsCapitalized(b)))
  }

  predicate ArePieces(pieces: seq<seq<Byte>>) {
    && (forall i :: 0 <= i < |pieces| ==> IsSeparator(pieces[i]) || IsWordPiece(pieces[i]))
    && (forall i :: 0 <= i < |pieces| - 1 ==> Apart(pieces[i], pieces[i + 1]))
  }

  /** The pieces that are words, in lower case. */
  function WordsOf(pieces: seq<seq<Byte>>): seq<seq<Byte>> {
    if pieces == [] then []
    else (if IsSeparator(pieces[0]) then [] else [Lower(pieces[0])]) + WordsOf(pieces[1..])
  }

  lemma ClassifyExactly(c: Byte)
    ensures Classify(c) == UPPER <==> IsBig(c)
    ensures Classify(c) == LOWER <==> IsSmall(c)
    ensures Classify(c) == DIGIT <==> IsFigure(c)
    ensures ToLower(c) == if IsBig(c) then c - 'A' as int + 'a' as int else c
  {
  }

  /** The text from `i` on is a piece, and then `rest`. */
  ghost predicate PieceAt(text: seq<Byte>, i: nat, piece: seq<Byte>, rest: seq<Byte>) {
    i <= |text| && text[i..] == piece + rest
  }

  lemma PieceBytes(text: seq<Byte>, i: nat, piece: seq<Byte>, rest: seq<Byte>)
    requires PieceAt(text, i, piece, rest)
    ensures i + |piece| + |rest| == |text| && text[i..i + |piece|] == piece && text[i + |piece|..] == rest
    ensures forall k :: 0 <= k < |piece| ==> text[i + k] == piece[k]
    ensures rest != [] ==> text[i + |piece|] == rest[0]
    ensures |rest| > 1 ==> text[i + |piece| + 1] == rest[1]
  {
    assert text == text[..i] + (piece + rest);
  }

  lemma TypesInside(piece: seq<Byte>, k: nat)
    requires IsWordPiece(piece) && k < |piece|
    ensures Classify(piece[k]) != MISC
    ensures k > 0 && AllSmall(piece) ==> Classify(piece[k - 1]) == Classify(piece[k]) == LOWER
    ensures k > 0 && AllBig(piece) ==> Classify(piece[k - 1]) == Classify(piece[k]) == UPPER
    ensures k > 0 && AllFigures(piece) ==> Classify(piece[k - 1]) == Classify(piece[k]) == DIGIT
    ensures k > 0 && IsCapitalized(piece) ==> Classify(piece[k]) == LOWER && Classify(piece[k - 1]) == if k == 1 then UPPER else LOWER
  {
    if IsCapitalized(piece) && k > 0 {
      assert piece[k] == piece[1..][k - 1];
      assert k > 1 ==> piece[k - 1] == piece[1..][k - 2];
    }
    ClassifyExactly(piece[k]);
    if k > 0 {
      ClassifyExactly(piece[k - 1]);
    }
  }

  /** As Apart, for what follows as a text. */
  predicate EndsBefore(piece: seq<Byte>, rest: seq<Byte>)
    requires piece != []
  {
    var last := piece[|piece| - 1];
    rest != [] ==>
      && (IsSmall(last) ==> !IsSmall(rest[0]))
      && (IsFigure(last) ==> !IsFigure(rest[0]))
      && (IsBig(last) ==> !IsSmall(rest[0]) && (IsBig(rest[0]) ==> |rest| > 1 && IsSmall(rest[1])))
  }

  lemma ApartInText(piece: seq<Byte>, next: seq<Byte>, more: seq<Byte>)
    requires piece != [] && next != [] && Apart(piece, next)
    ensures EndsBefore(piece, next + more)
  {
    assert IsCapitalized(next) ==> IsSmall(next[1..][0]);
  }

  /** No cut inside of a word. */
  lemma NoCutInside(text: seq<Byte>, i: nat, piece: seq<Byte>, rest: seq<Byte>, k: nat)
    requires PieceAt(text, i, piece, rest) && IsWordPiece(piece) && 0 < k < |piece| && EndsBefore(piece, rest)
    ensures !Splits(text, i + k)
  {
    PieceBytes(text, i, piece, rest);
    TypesInside(piece, k);
    if k + 1 < |piece| {
      TypesInside(piece, k + 1);
    } else if rest != [] {
      ClassifyExactly(piece[k]);
      ClassifyExactly(rest[0]);
    }
  }

  /** A cut after it. */
  lemma CutAfter(text: seq<Byte>, i: nat, piece: seq<Byte>, rest: seq<Byte>)
    requires PieceAt(text, i, piece, rest) && IsWordPiece(piece) && EndsBefore(piece, rest) && rest != []
    ensures Splits(text, i + |piece|)
  {
    PieceBytes(text, i, piece, rest);
    ClassifyExactly(piece[|piece| - 1]);
    ClassifyExactly(rest[0]);
    if |rest| > 1 {
      ClassifyExactly(rest[1]);
    }
  }

  /** So the word ends where the piece does. */
  lemma PieceIsUncut(text: seq<Byte>, i: nat, piece: seq<Byte>, rest: seq<Byte>)
    requires PieceAt(text, i, piece, rest) && IsWordPiece(piece) && EndsBefore(piece, rest)
    ensures i + |piece| <= |text| && WordEnd(text, i + 1) == i + |piece|
  {
    PieceBytes(text, i, piece, rest);
    var end := i + |piece|;
    forall j | i + 1 <= j < end
      ensures !Splits(text, j)
    {
      NoCutInside(text, i, piece, rest, j - i);
    }
    if end < |text| {
      CutAfter(text, i, piece, rest);
    }
    WordEndIs(text, i + 1, end);
  }

  lemma PieceIsToken(text: seq<Byte>, i: nat, piece: seq<Byte>, rest: seq<Byte>)
    requires PieceAt(text, i, piece, rest) && IsWordPiece(piece) && EndsBefore(piece, rest)
    ensures i + |piece| <= |text| && WordsFrom(text, i) == [Lower(piece)] + WordsFrom(text, i + |piece|)
  {
    PieceIsUncut(text, i, piece, rest);
    PieceBytes(text, i, piece, rest);
    TypesInside(piece, 0);
  }

  lemma SeparatorIsSkipped(text: seq<Byte>, i: nat, piece: seq<Byte>, rest: seq<Byte>)
    requires PieceAt(text, i, piece, rest) && IsSeparator(piece)
    ensures i < |text| && WordsFrom(text, i) == WordsFrom(text, i + 1)
  {
    PieceBytes(text, i, piece, rest);
    ClassifyExactly(piece[0]);
  }

  lemma FirstEndsBefore(pieces: seq<seq<Byte>>)
    requires pieces != [] && ArePieces(pieces)
    ensures EndsBefore(pieces[0], Concatenated(pieces[1..]))
  {
    if |pieces| > 1 {
      ApartInText(pieces[0], pieces[1], Concatenated(pieces[1..][1..]));
    }
  }

  lemma WordsOfFirst(pieces: seq<seq<Byte>>)
    requires pieces != []
    ensures WordsOf(pieces) == if IsSeparator(pieces[0]) then WordsOf(pieces[1..]) else [Lower(pieces[0])] + WordsOf(pieces[1..])
  {
    assert [] + WordsOf(pieces[1..]) == WordsOf(pieces[1..]);
  }

  lemma {:induction false} PiecesAreTokensFrom(text: seq<Byte>, i: nat, pieces: seq<seq<Byte>>)
    requires ArePieces(pieces) && i <= |text| && text[i..] == Concatenated(pieces)
    ensures WordsFrom(text, i) == WordsOf(pieces)
    decreases |pieces|
  {
    if pieces != [] {
      var piece, rest := pieces[0], Concatenated(pieces[1..]);
      PieceBytes(text, i, piece, rest);
      PiecesAreTokensFrom(text, i + |piece|, pieces[1..]);
      WordsOfFirst(pieces);
      if IsSeparator(piece) {
        SeparatorIsSkipped(text, i, piece, rest);
      } else {
        FirstEndsBefore(pieces);
        PieceIsToken(text, i, piece, rest);
      }
    }
  }

  /** Main result on tokens: a name put together from words and separators that stay apart
      has those words as its tokens. */
  lemma PiecesAreTokens(pieces: seq<seq<Byte>>)
    requires ArePieces(pieces)
    ensures Tokens(Concatenated(pieces)) == WordsOf(pieces)
  {
    var text := Concatenated(pieces);
    assert text[0..] == text;
    PiecesAreTokensFrom(text, 0, pieces);
  }

  // ---------- Every name is put together so ----------

  predicate AllOf(text: seq<Byte>, i: nat, end: nat, kind: CharType)
    requires end <= |text|
  {
    forall j :: i <= j < end ==> Classify(text[j]) == kind
  }

  /** The kinds of words, by classes of characters. */
  predicate IsUniform(text: seq<Byte>, i: nat, end: nat)
    requires i < end <= |text|
  {
    || AllOf(text, i, end, LOWER) || AllOf(text, i, end, UPPER) || AllOf(text, i, end, DIGIT)
    || (i + 1 < end && Classify(text[i]) == UPPER && AllOf(text, i + 1, end, LOWER))
  }

  lemma {:induction false} UncutIsUniform(text: seq<Byte>, i: nat, end: nat)
    requires i < end <= |text| && Classify(text[i]) != MISC
    requires forall j :: i < j < end ==> !Splits(text, j)
    ensures IsUniform(text, i, end)
  {
    if i + 1 < end {
      UncutIsUniform(text, i, end - 1);
      assert !Splits(text, end - 1);
      if i + 2 < end {
        assert !Splits(text, end - 2);
      }
    }
  }

  lemma UniformIsPiece(text: seq<Byte>, i: nat, end: nat)
    requires i < end <= |text| && IsUniform(text, i, end)
    ensures IsWordPiece(text[i..end])
  {
    var piece := text[i..end];
    forall k | 0 <= k < |piece|
      ensures piece[k] == text[i + k]
      ensures Classify(piece[k]) == UPPER <==> IsBig(piece[k])
      ensures Classify(piece[k]) == LOWER <==> IsSmall(piece[k])
      ensures Classify(piece[k]) == DIGIT <==> IsFigure(piece[k])
    {
      ClassifyExactly(piece[k]);
    }
  }

  /** Where there is a cut the pieces are apart, if the second is a word as it stands. */
  lemma CutMeansApart(text: seq<Byte>, i: nat, at: nat, end: nat)
    requires i < at < end <= |text| && Splits(text, at)
    requires IsSeparator(text[at..end]) || (IsUniform(text, at, end) && (end < |text| ==> Splits(text, end)))
    ensures Apart(text[i..at], text[at..end])
  {
    ClassifyExactly(text[at - 1]);
    ClassifyExactly(text[at]);
    if at + 1 < |text| {
      ClassifyExactly(text[at + 1]);
    }
    if IsBig(text[at - 1]) && IsBig(text[at]) {
      assert IsUniform(text, at, end);
      UniformIsCapitalized(text, at, end);
    }
  }

  lemma UniformIsCapitalized(text: seq<Byte>, at: nat, end: nat)
    requires 0 < at < end <= |text| && IsUniform(text, at, end) && (end < |text| ==> Splits(text, end))
    requires Classify(text[at]) == UPPER && at + 1 < |text| && Classify(text[at + 1]) == LOWER
    ensures IsCapitalized(text[at..end])
  {
    UniformIsPiece(text, at, end);
    var piece := text[at..end];
    assert at + 1 < end;
    assert piece[1] == text[at + 1] && piece[0] == text[at];
    ClassifyExactly(piece[0]);
    ClassifyExactly(piece[1]);
  }

  /** A separator or an uncut word. */
  predicate IsPieceAt(text: seq<Byte>, i: nat, end: nat)
    requires i < end <= |text|
  {
    if Classify(text[i]) == MISC then end == i + 1 else end == WordEnd(text, i + 1)
  }

  lemma PieceFits(text: seq<Byte>, i: nat, end: nat)
    requires i < end <= |text| && IsPieceAt(text, i, end)
    ensures IsSeparator(text[i..end]) || IsWordPiece(text[i..end])
    ensures IsSeparator(text[i..end]) || IsUniform(text, i, end)
    ensures end < |text| && Classify(text[i]) != MISC ==> Splits(text, end)
  {
    ClassifyExactly(text[i]);
    if Classify(text[i]) != MISC {
      UncutIsUniform(text, i, end);
      UniformIsPiece(text, i, end);
    }
  }

  lemma NextIsApart(text: seq<Byte>, i: nat, at: nat, end: nat)
    requires i < at < end <= |text| && IsPieceAt(text, i, at) && IsPieceAt(text, at, end)
    ensures Apart(text[i..at], text[at..end])
  {
    PieceFits(text, i, at);
    PieceFits(text, at, end);
    ClassifyExactly(text[i]);
    ClassifyExactly(text[at]);
    if Classify(text[i]) != MISC {
      CutMeansApart(text, i, at, end);
    }
  }

  /** Main result: every name is put together from words and separators that stay apart. */
  lemma {:induction false} PiecesOfText(text: seq<Byte>, i: nat) returns (pieces: seq<seq<Byte>>)
    requires i <= |text|
    ensures ArePieces(pieces) && Concatenated(pieces) == text[i..]
    ensures i < |text| <==> pieces != []
    ensures i < |text| ==> exists end :: i < end <= |text| && IsPieceAt(text, i, end) && pieces[0] == text[i..end]
    decreases |text| - i
  {
    if i == |text| {
      pieces := [];
    } else {
      var end := if Classify(text[i]) == MISC then i + 1 else WordEnd(text, i + 1);
      PieceFits(text, i, end);
      var more := PiecesOfText(text, end);
      pieces := [text[i..end]] + more;
      assert pieces[1..] == more && text[i..] == text[i..end] + text[end..];
      if end < |text| {
        var next :| end < next <= |text| && IsPieceAt(text, end, next) && more[0] == text[end..next];
        NextIsApart(text, i, end, next);
      }
    }
  }

  /** So the tokens of any name are its words: those of the pieces that it consists of. */
  lemma TokensAreTheWords(text: seq<Byte>) returns (pieces: seq<seq<Byte>>)
    ensures ArePieces(pieces) && Concatenated(pieces) == text && Tokens(text) == WordsOf(pieces)
  {
    pieces := PiecesOfText(text, 0);
    assert text[0..] == text;
    PiecesAreTokens(pieces);
  }
}
