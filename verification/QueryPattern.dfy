/**
 The regular expression for a query, what it matches, and what that means for the
 words of a symbol.
 */
module QueryPattern {
  import opened Bytes
  import opened SymbolTokens

  const SPACE: Byte := 32

  // ---------- Regular expressions ----------

  /** A character, `[[:alnum:]]*`, or a group that may be left out. */
  datatype Regex = Letter(c: Byte) | AlnumStar | Optional(parts: seq<Regex>)

  predicate AllAlnum(s: seq<Byte>) {
    forall i :: 0 <= i < |s| ==> Classify(s[i]) != MISC
  }

  ghost predicate Matches(r: Regex, s: seq<Byte>)
    decreases r, 0
  {
    match r
    case Letter(c) => s == [c]
    case AlnumStar => AllAlnum(s)
    case Optional(parts) => s == [] || MatchesAll(parts, s)
  }

  /** The parts match consecutive pieces of the text. */
  ghost predicate MatchesAll(rs: seq<Regex>, s: seq<Byte>)
    decreases rs, 1
  {
    if rs == [] then s == []
    else exists k :: 0 <= k <= |s| && Matches(rs[0], s[..k]) && MatchesAll(rs[1..], s[k..])
  }

  /** The parts match a beginning of the text: a search for `^...`. */
  ghost predicate MatchesStart(rs: seq<Regex>, t: seq<Byte>) {
    exists n :: 0 <= n <= |t| && MatchesAll(rs, t[..n])
  }

  // ---------- The query's expression ----------

  /** From a word of the query to the next. */
  const NEXT_WORD := [AlnumStar, Letter(SPACE)]

  /** The letters of a word after its first: each may begin another word of the
      symbol. */
  function OtherLetters(q: seq<Byte>): seq<Regex> {
    if q == [] then [] else [Optional(NEXT_WORD), Letter(q[0])] + OtherLetters(q[1..])
  }

  function OtherWords(qs: seq<seq<Byte>>): seq<Regex>
    requires AreWords(qs)
  {
    if qs == [] then [] else NEXT_WORD + ([Letter(qs[0][0])] + (OtherLetters(qs[0][1..]) + OtherWords(qs[1..])))
  }

  function QueryRegex(qs: seq<seq<Byte>>): seq<Regex>
    requires AreWords(qs)
  {
    if qs == [] then [] else [Letter(qs[0][0])] + (OtherLetters(qs[0][1..]) + OtherWords(qs[1..]))
  }

  // ---------- What it should mean ----------

  /** The word is cut into pieces that are beginnings of the tokens, one each. */
  ghost predicate Covers(q: seq<Byte>, tokens: seq<seq<Byte>>) {
    if tokens == [] then q == []
    else exists k :: 1 <= k <= |q| && q[..k] <= tokens[0] && Covers(q[k..], tokens[1..])
  }

  /** Each word of the query covers the next tokens of the symbol, from the first on. */
  ghost predicate Fits(qs: seq<seq<Byte>>, tokens: seq<seq<Byte>>)
    decreases |qs|
  {
    qs == [] || exists m :: 0 <= m <= |tokens| && Covers(qs[0], tokens[..m]) && Fits(qs[1..], tokens[m..])
  }

  /** The tokens of a symbol as they are searched: with spaces between them. */
  function Joined(tokens: seq<seq<Byte>>): seq<Byte>
    decreases |tokens|, 0
  {
    if tokens == [] then [] else After(tokens[0], tokens[1..])
  }

  /** The rest of a token and the tokens that follow. */
  function After(u: seq<Byte>, tokens: seq<seq<Byte>>): seq<Byte>
    decreases |tokens|, 1
  {
    if tokens == [] then u else u + ([SPACE] + Joined(tokens))
  }

  // ---------- Matching step by step ----------

  lemma MatchStep(rs: seq<Regex>, t: seq<Byte>)
    requires rs != []
    ensures MatchesStart(rs, t) <==> exists k :: 0 <= k <= |t| && Matches(rs[0], t[..k]) && MatchesStart(rs[1..], t[k..])
  {
    if n :| 0 <= n <= |t| && MatchesAll(rs, t[..n]) {
      var k :| 0 <= k <= n && Matches(rs[0], t[..n][..k]) && MatchesAll(rs[1..], t[..n][k..]);
      assert t[..n][..k] == t[..k] && t[..n][k..] == t[k..][..n - k];
    }
    if k :| 0 <= k <= |t| && Matches(rs[0], t[..k]) && MatchesStart(rs[1..], t[k..]) {
      var n :| 0 <= n <= |t[k..]| && MatchesAll(rs[1..], t[k..][..n]);
      assert t[..k + n][..k] == t[..k] && t[..k + n][k..] == t[k..][..n];
      assert MatchesAll(rs, t[..k + n]);
    }
  }

  lemma MatchNothing(t: seq<Byte>)
    ensures MatchesStart([], t)
  {
    assert t[..0] == [];
  }

  lemma MatchLetter(c: Byte, rs: seq<Regex>, t: seq<Byte>)
    ensures MatchesStart([Letter(c)] + rs, t) <==> t != [] && t[0] == c && MatchesStart(rs, t[1..])
  {
    var all := [Letter(c)] + rs;
    assert all[1..] == rs;
    MatchStep(all, t);
    if t != [] && t[0] == c {
      assert t[..1] == [c];
    }
  }

  /** Letters and digits and then a space: that is the rest of the token. */
  lemma MatchNextWord(rs: seq<Regex>, u: seq<Byte>, tokens: seq<seq<Byte>>)
    requires AllAlnum(u)
    ensures MatchesStart(NEXT_WORD + rs, After(u, tokens)) <==> tokens != [] && MatchesStart(rs, Joined(tokens))
  {
    var t := After(u, tokens);
    var all := NEXT_WORD + rs;
    assert all[1..] == [Letter(SPACE)] + rs;
    MatchStep(all, t);
    forall k | 0 <= k <= |t|
      ensures AllAlnum(t[..k]) && MatchesStart(all[1..], t[k..]) <==>
              k == |u| && tokens != [] && MatchesStart(rs, Joined(tokens))
    {
      MatchLetter(SPACE, rs, t[k..]);
      SpaceAfterToken(u, tokens, k);
    }
    if tokens != [] && MatchesStart(rs, Joined(tokens)) {
      assert Matches(all[0], t[..|u|]) && MatchesStart(all[1..], t[|u|..]);
    }
  }

  lemma SpaceAfterToken(u: seq<Byte>, tokens: seq<seq<Byte>>, k: nat)
    requires AllAlnum(u) && k <= |After(u, tokens)|
    ensures var t := After(u, tokens);
            && (AllAlnum(t[..k]) && k < |t| && t[k] == SPACE <==> k == |u| && tokens != [])
            && (k == |u| && tokens != [] ==> t[k..][1..] == Joined(tokens))
  {
    var t := After(u, tokens);
    if tokens != [] {
      assert t[|u|] == SPACE && t[|u|..] == [SPACE] + Joined(tokens);
      if k > |u| {
        assert t[..k][|u|] == SPACE;
      }
    }
    if k <= |u| {
      assert forall i :: 0 <= i < k ==> t[..k][i] == u[i];
    }
  }

  lemma MatchOptional(rs: seq<Regex>, t: seq<Byte>)
    ensures MatchesStart([Optional(NEXT_WORD)] + rs, t) <==> MatchesStart(rs, t) || MatchesStart(NEXT_WORD + rs, t)
  {
    var all := [Optional(NEXT_WORD)] + rs;
    assert all[1..] == rs;
    MatchStep(all, t);
    MatchInTwoParts(NEXT_WORD, rs, t);
    assert t[..0] == [] && t[0..] == t;
    if k: nat :| MatchesAt(NEXT_WORD, rs, t, k) {
      assert Matches(all[0], t[..k]);
    }
    if k :| 0 <= k <= |t| && Matches(all[0], t[..k]) && MatchesStart(rs, t[k..]) {
      assert t[..k] == [] || MatchesAt(NEXT_WORD, rs, t, k);
    }
  }

  /** `first` matches up to `k` and `rs` from there. */
  ghost predicate MatchesAt(first: seq<Regex>, rs: seq<Regex>, t: seq<Byte>, k: nat) {
    k <= |t| && MatchesAll(first, t[..k]) && MatchesStart(rs, t[k..])
  }

  lemma {:induction false} MatchInTwoParts(first: seq<Regex>, rs: seq<Regex>, t: seq<Byte>)
    ensures MatchesStart(first + rs, t) <==> exists k: nat :: MatchesAt(first, rs, t, k)
    decreases |first|
  {
    if first == [] {
      assert first + rs == rs && t[..0] == [] && t[0..] == t;
      if MatchesStart(rs, t) {
        assert MatchesAt(first, rs, t, 0);
      }
    } else {
      assert (first + rs)[1..] == first[1..] + rs;
      MatchStep(first + rs, t);
      if k :| 0 <= k <= |t| && Matches(first[0], t[..k]) && MatchesStart(first[1..] + rs, t[k..]) {
        MatchInTwoParts(first[1..], rs, t[k..]);
        var l: nat :| MatchesAt(first[1..], rs, t[k..], l);
        TwoPartsLonger(first, rs, t, k, l);
      }
      if n: nat :| MatchesAt(first, rs, t, n) {
        var k := TwoPartsShorter(first, rs, t, n);
        MatchInTwoParts(first[1..], rs, t[k..]);
      }
    }
  }

  lemma TwoPartsLonger(first: seq<Regex>, rs: seq<Regex>, t: seq<Byte>, k: nat, l: nat)
    requires first != [] && k <= |t| && Matches(first[0], t[..k]) && MatchesAt(first[1..], rs, t[k..], l)
    ensures MatchesAt(first, rs, t, k + l)
  {
    var s := t[..k + l];
    assert s[..k] == t[..k] && s[k..] == t[k..][..l] && t[k..][l..] == t[k + l..];
    assert MatchesAll(first, s);
  }

  lemma TwoPartsShorter(first: seq<Regex>, rs: seq<Regex>, t: seq<Byte>, n: nat) returns (k: nat)
    requires first != [] && MatchesAt(first, rs, t, n)
    ensures k <= n <= |t| && Matches(first[0], t[..k]) && MatchesAt(first[1..], rs, t[k..], n - k)
  {
    var s := t[..n];
    k :| 0 <= k <= n && Matches(first[0], s[..k]) && MatchesAll(first[1..], s[k..]);
    assert s[..k] == t[..k] && s[k..] == t[k..][..n - k] && t[k..][n - k..] == t[n..];
  }

  // ---------- The same on words ----------

  /** `q` and then `qs` are still to be matched, in the rest `u` of a token or in the
      tokens after it. */
  ghost predicate Continues(q: seq<Byte>, qs: seq<seq<Byte>>, u: seq<Byte>, tokens: seq<seq<Byte>>)
    decreases |qs|, |q|, 0
  {
    if q == [] then qs == [] || (qs[0] != [] && Begins(qs[0], qs[1..], tokens))
    else (u != [] && u[0] == q[0] && Continues(q[1..], qs, u[1..], tokens)) || Begins(q, qs, tokens)
  }

  /** `q` begins at the first of the tokens. */
  ghost predicate Begins(q: seq<Byte>, qs: seq<seq<Byte>>, tokens: seq<seq<Byte>>)
    requires q != []
    decreases |qs|, |q| - 1, 1
  {
    tokens != [] && tokens[0] != [] && tokens[0][0] == q[0] && Continues(q[1..], qs, tokens[0][1..], tokens[1..])
  }

  lemma {:induction false} MatchContinues(q: seq<Byte>, qs: seq<seq<Byte>>, u: seq<Byte>, tokens: seq<seq<Byte>>)
    requires AllAlnum(q) && AreWords(qs) && AllAlnum(u) && AreWords(tokens)
    ensures MatchesStart(OtherLetters(q) + OtherWords(qs), After(u, tokens)) <==> Continues(q, qs, u, tokens)
    decreases |qs|, |q|, 0
  {
    var t := After(u, tokens);
    if q == [] {
      assert OtherLetters(q) + OtherWords(qs) == OtherWords(qs);
      if qs == [] {
        MatchNothing(t);
      } else {
        MatchNextWord([Letter(qs[0][0])] + (OtherLetters(qs[0][1..]) + OtherWords(qs[1..])), u, tokens);
        if tokens != [] {
          MatchBegins(qs[0], qs[1..], tokens);
        }
      }
    } else {
      var others := [Letter(q[0])] + (OtherLetters(q[1..]) + OtherWords(qs));
      assert OtherLetters(q) + OtherWords(qs) == [Optional(NEXT_WORD)] + others;
      MatchOptional(others, t);
      MatchNextWord(others, u, tokens);
      MatchLetter(q[0], OtherLetters(q[1..]) + OtherWords(qs), t);
      InsideToken(q[0], u, tokens);
      if u != [] {
        MatchContinues(q[1..], qs, u[1..], tokens);
      }
      if tokens != [] {
        MatchBegins(q, qs, tokens);
      }
    }
  }

  /** A letter is found at the beginning of the rest of the token only. */
  lemma InsideToken(c: Byte, u: seq<Byte>, tokens: seq<seq<Byte>>)
    requires Classify(c) != MISC
    ensures var t := After(u, tokens); t != [] && t[0] == c <==> u != [] && u[0] == c
    ensures u != [] ==> After(u, tokens)[1..] == After(u[1..], tokens)
  {
  }

  lemma {:induction false} MatchBegins(q: seq<Byte>, qs: seq<seq<Byte>>, tokens: seq<seq<Byte>>)
    requires q != [] && AllAlnum(q) && AreWords(qs) && AreWords(tokens) && tokens != []
    ensures MatchesStart([Letter(q[0])] + (OtherLetters(q[1..]) + OtherWords(qs)), Joined(tokens)) <==> Begins(q, qs, tokens)
    decreases |qs|, |q| - 1, 1
  {
    var u := tokens[0];
    assert IsWord(u);
    MatchLetter(q[0], OtherLetters(q[1..]) + OtherWords(qs), Joined(tokens));
    InsideToken(q[0], u, tokens[1..]);
    MatchContinues(q[1..], qs, u[1..], tokens[1..]);
  }

  // ---------- The pieces ----------

  /** The first `k` letters of `q` are in the rest of the token, the others cover the
      next tokens, and the other words follow. */
  ghost predicate InPieces(q: seq<Byte>, qs: seq<seq<Byte>>, u: seq<Byte>, tokens: seq<seq<Byte>>, k: nat, m: nat) {
    && k <= |q| && m <= |tokens| && q[..k] <= u
    && Covers(q[k..], tokens[..m]) && Fits(qs, tokens[m..])
  }

  /** One more letter in the rest of the token. */
  lemma SplitLonger(q: seq<Byte>, qs: seq<seq<Byte>>, u: seq<Byte>, tokens: seq<seq<Byte>>, k: nat, m: nat)
    requires q != [] && u != [] && u[0] == q[0]
    ensures InPieces(q[1..], qs, u[1..], tokens, k, m) <==> InPieces(q, qs, u, tokens, k + 1, m)
  {
    if k + 1 <= |q| {
      assert q[1..][k..] == q[k + 1..];
      assert q[..k + 1] == [q[0]] + q[1..][..k] && u == [u[0]] + u[1..];
      if k + 1 <= |u| && q[..k + 1] <= u {
        assert q[..k + 1][1..] == u[..k + 1][1..];
      }
    }
  }

  /** No letter in the rest of the token. */
  lemma SplitAtToken(q: seq<Byte>, qs: seq<seq<Byte>>, u: seq<Byte>, tokens: seq<seq<Byte>>, m: nat)
    ensures InPieces(q, qs, u, tokens, 0, m) <==> m <= |tokens| && Covers(q, tokens[..m]) && Fits(qs, tokens[m..])
  {
    assert q[0..] == q && q[..0] == [];
  }

  lemma FirstLetterOfSplit(q: seq<Byte>, qs: seq<seq<Byte>>, u: seq<Byte>, tokens: seq<seq<Byte>>, k: nat, m: nat)
    requires InPieces(q, qs, u, tokens, k, m) && k > 0
    ensures u != [] && u[0] == q[0]
  {
    assert q[..k][0] == q[0];
  }

  lemma {:induction false} ContinuesIsSplit(q: seq<Byte>, qs: seq<seq<Byte>>, u: seq<Byte>, tokens: seq<seq<Byte>>)
    requires AreWords(qs)
    ensures Continues(q, qs, u, tokens) <==> exists k: nat, m: nat :: InPieces(q, qs, u, tokens, k, m)
    decreases |qs|, |q|, 0
  {
    if q == [] {
      if qs != [] {
        BeginsIsSplit(qs[0], qs[1..], tokens);
      }
      if Continues(q, qs, u, tokens) {
        assert InPieces(q, qs, u, tokens, 0, 0);
      }
    } else {
      BeginsIsSplit(q, qs, tokens);
      if u != [] && u[0] == q[0] {
        ContinuesIsSplit(q[1..], qs, u[1..], tokens);
        if k: nat, m: nat :| InPieces(q[1..], qs, u[1..], tokens, k, m) {
          SplitLonger(q, qs, u, tokens, k, m);
        }
      }
      if m: nat :| m <= |tokens| && Covers(q, tokens[..m]) && Fits(qs, tokens[m..]) {
        SplitAtToken(q, qs, u, tokens, m);
      }
      if k: nat, m: nat :| InPieces(q, qs, u, tokens, k, m) {
        if k == 0 {
          SplitAtToken(q, qs, u, tokens, m);
        } else {
          FirstLetterOfSplit(q, qs, u, tokens, k, m);
          SplitLonger(q, qs, u, tokens, k - 1, m);
        }
      }
    }
  }

  /** A word covers tokens by its first `k` letters in the first of them. */
  lemma CoversByFirst(q: seq<Byte>, tokens: seq<seq<Byte>>, m: nat)
    requires q != [] && 0 < m <= |tokens|
    ensures Covers(q, tokens[..m]) <==> exists k :: 1 <= k <= |q| && q[..k] <= tokens[0] && Covers(q[k..], tokens[1..][..m - 1])
  {
    assert tokens[..m][1..] == tokens[1..][..m - 1];
  }

  lemma PiecesFromFirst(q: seq<Byte>, qs: seq<seq<Byte>>, tokens: seq<seq<Byte>>, k: nat, m: nat)
    requires q != [] && tokens != [] && tokens[0] != [] && tokens[0][0] == q[0]
    requires InPieces(q[1..], qs, tokens[0][1..], tokens[1..], k, m)
    ensures m + 1 <= |tokens| && Covers(q, tokens[..m + 1]) && Fits(qs, tokens[m + 1..])
  {
    SplitLonger(q, qs, tokens[0], tokens[1..], k, m);
    CoversByFirst(q, tokens, m + 1);
    assert tokens[1..][m..] == tokens[m + 1..];
  }

  lemma FirstOfPieces(q: seq<Byte>, qs: seq<seq<Byte>>, tokens: seq<seq<Byte>>, m: nat) returns (k: nat)
    requires q != [] && m <= |tokens| && Covers(q, tokens[..m]) && Fits(qs, tokens[m..])
    ensures m > 0 && tokens[0] != [] && tokens[0][0] == q[0]
    ensures InPieces(q[1..], qs, tokens[0][1..], tokens[1..], k, m - 1)
  {
    CoversByFirst(q, tokens, m);
    var l: nat :| 1 <= l <= |q| && q[..l] <= tokens[0] && Covers(q[l..], tokens[1..][..m - 1]);
    assert tokens[1..][m - 1..] == tokens[m..];
    FirstLetterOfSplit(q, qs, tokens[0], tokens[1..], l, m - 1);
    k := l - 1;
    SplitLonger(q, qs, tokens[0], tokens[1..], k, m - 1);
  }

  lemma {:induction false} BeginsIsSplit(q: seq<Byte>, qs: seq<seq<Byte>>, tokens: seq<seq<Byte>>)
    requires q != [] && AreWords(qs)
    ensures Begins(q, qs, tokens) <==> exists m: nat :: m <= |tokens| && Covers(q, tokens[..m]) && Fits(qs, tokens[m..])
    decreases |qs|, |q| - 1, 1
  {
    if Begins(q, qs, tokens) {
      ContinuesIsSplit(q[1..], qs, tokens[0][1..], tokens[1..]);
      var k: nat, m: nat :| InPieces(q[1..], qs, tokens[0][1..], tokens[1..], k, m);
      PiecesFromFirst(q, qs, tokens, k, m);
    }
    if m: nat :| m <= |tokens| && Covers(q, tokens[..m]) && Fits(qs, tokens[m..]) {
      var k := FirstOfPieces(q, qs, tokens, m);
      ContinuesIsSplit(q[1..], qs, tokens[0][1..], tokens[1..]);
    }
  }

  /** Main result: the expression of a query matches the joined tokens exactly when the
      query's words are cut into beginnings of consecutive tokens, from the first on,
      and each word begins with a new token. */
  lemma QueryMatchesExactly(qs: seq<seq<Byte>>, tokens: seq<seq<Byte>>)
    requires AreWords(qs) && AreWords(tokens)
    ensures MatchesStart(QueryRegex(qs), Joined(tokens)) <==> Fits(qs, tokens)
  {
    if qs == [] {
      MatchNothing(Joined(tokens));
    } else if tokens == [] {
      MatchLetter(qs[0][0], OtherLetters(qs[0][1..]) + OtherWords(qs[1..]), []);
    } else {
      MatchBegins(qs[0], qs[1..], tokens);
      BeginsIsSplit(qs[0], qs[1..], tokens);
    }
  }
}
