/**
 FuzzyMatcher as the source has it: an object whose buffers and score table are
 filled in place by nested loops. Its verdict, table and traceback are proved to
 be those of FuzzyOptimal, so a match is found exactly when there is one and its
 score is the best possible.
 */
module FuzzyMatch {
  import opened Bytes
  import opened FuzzyScoring
  import opened FuzzyOptimal

  // ---------- The rules for one pattern and word ----------

  function RulesOf(c: Problem): Rules {
    Rules(|c.pat.chars|, |c.word.chars|,
          (p, w) => c.InPattern(p) && c.InWord(w) && AllowMatch(c, p, w),
          (w, last) => if c.InWord(w) then SkipPenalty(c, w, last) else 0,
          (p, w, last) => if c.InPattern(p) && c.InWord(w) then MatchBonus(c, p, w, last) else 0)
  }

  /** The comparison of the cheap subsequence check. */
  function Letters(pat: seq<Byte>, word: seq<Byte>): (int, int) -> bool {
    (p, w) => 0 <= p < |pat| && 0 <= w < |word| && Lower(pat[p]) == Lower(word[w])
  }

  lemma RulesAt(c: Problem, p: int, w: int)
    requires c.InPattern(p) && c.InWord(w)
    ensures RulesOf(c).allow(p, w) == AllowMatch(c, p, w)
    ensures forall last :: RulesOf(c).penalty(w, last) == SkipPenalty(c, w, last)
    ensures forall last :: RulesOf(c).bonus(p, w, last) == MatchBonus(c, p, w, last)
  {
  }

  lemma RulesAreBounded(c: Problem)
    ensures Bounded(RulesOf(c))
    ensures forall p, w :: RulesOf(c).allow(p, w) ==> Letters(c.pat.chars, c.word.chars)(p, w)
  {
  }

  function Truncate(s: seq<Byte>, n: nat): (t: seq<Byte>)
    ensures t <= s && |t| <= n && (|t| < n ==> t == s)
  {
    if |s| <= n then s else s[..n]
  }

  function ProblemOf(pattern: seq<Byte>, word: seq<Byte>): Problem {
    Problem(Analyse(Truncate(pattern, MAX_PAT)), Analyse(Truncate(word, MAX_WORD)))
  }

  function VerdictOf(c: Problem): Verdict {
    Decide(RulesOf(c), Letters(c.pat.chars, c.word.chars))
  }

  /** Main result for callers: a word of any bytes and length matches exactly when
      some legal alignment of the truncated pattern and word exists, and the score
      is then the best alignment's, clamped. */
  lemma MatchIsOptimal(pattern: seq<Byte>, word: seq<Byte>)
    ensures var c := ProblemOf(pattern, word);
            var r, v := RulesOf(c), VerdictOf(c);
            && (v == NoMatch <==> !exists acts :: Complete(r, acts))
            && (v == Perfect <==> pattern == [])
            && (v.Scored? ==> exists acts :: IsBest(r, acts) && v.score == Min(PERFECT_BONUS * r.patN, Max(0, Score(r, acts))))
  {
    var c := ProblemOf(pattern, word);
    RulesAreBounded(c);
    DecideIsOptimal(RulesOf(c), Letters(c.pat.chars, c.word.chars));
  }

  function LowerAll(s: seq<Byte>): (r: seq<Byte>)
    ensures |r| == |s| && forall i :: 0 <= i < |s| ==> r[i] == Lower(s[i])
  {
    seq(|s|, i requires 0 <= i < |s| => Lower(s[i]))
  }

  /** Any legal alignment picks word characters that spell the pattern matched so
      far up to case. */
  lemma MatchSpellsPattern(c: Problem, acts: seq<Action>)
    requires Legal(RulesOf(c), acts)
    ensures Picked(LowerAll(c.word.chars), acts) == LowerAll(c.pat.chars)[..Matches(acts)]
  {
    PickedSpellsPattern(RulesOf(c), LowerAll(c.pat.chars), LowerAll(c.word.chars), acts);
  }

  /** Main result on the traceback: when there is a match, the path it reports is a
      best complete alignment, and the letter scores it reports add up along it. */
  lemma TraceBackIsBest(c: Problem)
    requires 0 < |c.pat.chars| <= MAX_PAT && |c.word.chars| <= MAX_WORD
    requires VerdictOf(c).Scored?
    ensures var r := RulesOf(c);
            var acts := Trace(TableOf(r), r.patN, r.wordN, FinalAction(r));
            var letterScores := TraceGains(TableOf(r), r.patN, r.wordN, FinalAction(r));
            && IsBest(r, acts)
            && VerdictOf(c).score == Min(PERFECT_BONUS * r.patN, Max(0, Score(r, acts)))
            && LetterScores(r, acts, letterScores)
  {
    var r := RulesOf(c);
    RulesAreBounded(c);
    TraceIsBest(r);
    ScoresFit(r, r.patN, r.wordN, FinalAction(r));
    RealPathOk(r, r.patN, r.wordN, FinalAction(r));
    TraceGainsAreLetterScores(r, TableOf(r), r.patN, r.wordN, FinalAction(r));
  }

  // ---------- Segmentation with a sliding window ----------

  /** `Types = ((Types << 2) | T) & 0x3f` */
  function Rotate(types: int, ty: int): int {
    (types * 4 + ty) % 64
  }

  /** The oldest type is rotated out. */
  lemma RotateWindow(oldest: int, middle: int, newest: int, ty: int)
    requires 0 <= oldest < 4 && 0 <= middle < 4 && 0 <= newest < 4 && 0 <= ty < 4
    ensures Rotate(oldest * 16 + middle * 4 + newest, ty) == middle * 16 + newest * 4 + ty
  {
    SixBits(oldest, middle * 16 + newest * 4 + ty);
  }

  lemma SixBits(high: int, low: int)
    requires 0 <= low < 64
    ensures (high * 64 + low) % 64 == low
  {
  }

  /** The types of the last three characters up to `i`. */
  function Window(typeOf: Byte -> int, text: seq<Byte>, i: int): int {
    TypeAt(typeOf, text, i - 2) * 16 + TypeAt(typeOf, text, i - 1) * 4 + TypeAt(typeOf, text, i)
  }

  /** Rotating in the type of the next character slides the window by one. */
  lemma RotateSlidesWindow(typeOf: Byte -> int, text: seq<Byte>, i: int)
    requires forall c :: 0 <= typeOf(c) < 4
    ensures Rotate(Window(typeOf, text, i - 1), TypeAt(typeOf, text, i)) == Window(typeOf, text, i)
  {
    RotateWindow(TypeAt(typeOf, text, i - 3), TypeAt(typeOf, text, i - 2), TypeAt(typeOf, text, i - 1), TypeAt(typeOf, text, i));
  }

  /** A window is looked up as the role of its middle character. */
  lemma WindowIsRole(typeOf: Byte -> int, roleOf: int -> int, text: seq<Byte>, i: int)
    ensures roleOf(Window(typeOf, text, i + 1)) == RoleAt(typeOf, roleOf, text, i)
  {
  }

  /** The lambda Rotate of calculateRoles. */
  method SlideIn(types: int, ty: int, ghost typeOf: Byte -> int, ghost text: seq<Byte>, ghost i: int) returns (next: int)
    requires (forall c :: 0 <= typeOf(c) < 4) && types == Window(typeOf, text, i - 1) && ty == TypeAt(typeOf, text, i)
    ensures next == Window(typeOf, text, i)
  {
    RotateSlidesWindow(typeOf, text, i);
    next := Rotate(types, ty);
  }

  /** Fills `out` with the roles of the characters of `text`. `typeOf` and
      `roleOf` are the lookups in the two packed tables. */
  method CalculateRoles(typeOf: Byte -> int, roleOf: int -> int, text: seq<Byte>, out: array<int>)
    returns (typeSet: set<int>)
    requires forall c :: 0 <= typeOf(c) < 4
    requires 0 < |text| <= out.Length
    modifies out
    ensures out[..|text|] == RolesBy(typeOf, roleOf, text)
    ensures typeSet == TypesUpTo(typeOf, text, |text|)
  {
    ghost var roles := RolesBy(typeOf, roleOf, text);
    forall i | 0 <= i < |text|
      ensures roles[i] == roleOf(Window(typeOf, text, i + 1))
    {
      WindowIsRole(typeOf, roleOf, text, i);
    }
    typeSet := SlideOver(typeOf, roleOf, text, out, roles);
  }

  /** The loop of calculateRoles: looks up every window. */
  method SlideOver(typeOf: Byte -> int, roleOf: int -> int, text: seq<Byte>, out: array<int>, ghost roles: seq<int>)
    returns (typeSet: set<int>)
    requires forall c :: 0 <= typeOf(c) < 4
    requires 0 < |text| <= out.Length
    requires |roles| == |text| && forall i :: 0 <= i < |text| ==> roles[i] == roleOf(Window(typeOf, text, i + 1))
    modifies out
    ensures out[..|text|] == roles
    ensures typeSet == TypesUpTo(typeOf, text, |text|)
  {
    var n := |text|;
    var ty := typeOf(text[0]);
    typeSet := {ty};
    var types := ty;
    for i := 0 to n - 1
      invariant types == Window(typeOf, text, i)
      invariant typeSet == TypesUpTo(typeOf, text, i + 1)
      invariant forall j :: 0 <= j < i ==> out[j] == roles[j]
    {
      ty := typeOf(text[i + 1]);
      typeSet := typeSet + {ty};
      types := SlideIn(types, ty, typeOf, text, i + 1);
      out[i] := roleOf(types);
    }
    types := SlideIn(types, EMPTY, typeOf, text, n);
    out[n - 1] := roleOf(types);
  }

  // ---------- The equations that buildGraph solves ----------

  predicate FirstRowEquation(c: Problem, cells: Cells, w: int)
    requires c.InWord(w)
  {
    && cells(0, w + 1, Miss) == Stored(ScoreInfo(cells(0, w, Miss).score - SkipPenalty(c, w, Miss), Miss))
    && cells(0, w + 1, Match) == AWFUL
  }

  predicate MissEquation(c: Problem, cells: Cells, p: int, w: int)
    requires c.InWord(w)
  {
    var free := p + 1 == |c.pat.chars|;
    cells(p + 1, w + 1, Miss) ==
    Stored(Better(cells(p + 1, w, Match).score - (if free then 0 else SkipPenalty(c, w, Match)),
                  cells(p + 1, w, Miss).score - (if free then 0 else SkipPenalty(c, w, Miss))))
  }

  predicate MatchEquation(c: Problem, cells: Cells, p: int, w: int)
    requires c.InPattern(p) && c.InWord(w)
  {
    cells(p + 1, w + 1, Match) ==
    if !AllowMatch(c, p, w) then AWFUL
    else Stored(Better(cells(p, w, Match).score + MatchBonus(c, p, w, Match),
                       cells(p, w, Miss).score + MatchBonus(c, p, w, Miss)))
  }

  ghost predicate Recurrence(c: Problem, cells: Cells) {
    && cells(0, 0, Miss) == ScoreInfo(0, Miss) && cells(0, 0, Match) == AWFUL
    && (forall p, w :: 0 <= w < p <= |c.pat.chars| ==> Unreachable(cells, p, w))
    && (forall w :: c.InWord(w) ==> FirstRowEquation(c, cells, w))
    && (forall p, w :: c.InPattern(p) && c.InWord(w) && p <= w ==> MissEquation(c, cells, p, w) && MatchEquation(c, cells, p, w))
  }

  lemma EquationsAt(c: Problem, cells: Cells, p: int, w: int)
    requires Recurrence(c, cells) && c.InPattern(p) && c.InWord(w) && p <= w
    ensures MissEquation(c, cells, p, w) && MatchEquation(c, cells, p, w)
  {
  }

  /** Any solution for the rules of `c` satisfies the equations for `c`. */
  lemma RecurrenceOf(c: Problem, cells: Cells)
    requires c.Valid() && Solves(RulesOf(c), cells)
    ensures Recurrence(c, cells)
  {
    var r := RulesOf(c);
    forall w | c.InWord(w)
      ensures FirstRowEquation(c, cells, w)
    {
      assert FirstRowStep(r, cells, w);
    }
    forall p, w | c.InPattern(p) && c.InWord(w) && p <= w
      ensures MissEquation(c, cells, p, w) && MatchEquation(c, cells, p, w)
    {
      RulesAt(c, p, w);
      assert MissStep(r, cells, p, w) && MatchStep(r, cells, p, w);
    }
  }

  // ---------- The object ----------

  /** The third index of Scores. */
  function Index(a: Action): (i: int)
    ensures 0 <= i < 2
  {
    if a == Miss then 0 else 1
  }

  class FuzzyMatcher {
    const pat: seq<Byte>            // Pat[0..PatN)
    const lowPat: array<Byte>
    const patRole: array<int>
    var patTypeSet: set<int>
    var word: seq<Byte>             // Word[0..WordN)
    const lowWord: array<Byte>
    const wordRole: array<int>
    var wordTypeSet: set<int>
    var wordContainsPattern: bool
    const scores: array3<ScoreInfo>

    /** Sizes, and what the constructor filled in once and for all. */
    ghost predicate Valid()
      reads this, lowPat, patRole, scores
    {
      && |pat| <= MAX_PAT && |word| <= MAX_WORD
      && lowPat.Length == patRole.Length == MAX_PAT
      && lowWord.Length == wordRole.Length == MAX_WORD
      && lowPat != lowWord && patRole != wordRole
      && scores.Length0 == MAX_PAT + 1 && scores.Length1 == MAX_WORD + 1 && scores.Length2 == 2
      && (forall i :: 0 <= i < |pat| ==> lowPat[i] == Lower(pat[i]))
      && Boundary(scores, |pat|)
    }

    ghost predicate WordLowered()
      requires Valid()
      reads this, lowPat, patRole, lowWord, scores
    {
      forall i :: 0 <= i < |word| ==> lowWord[i] == Lower(word[i])
    }

    /** The pattern and word with the segmentation held in the buffers. */
    ghost function Current(): (c: Problem)
      requires Valid()
      reads this, lowPat, patRole, wordRole, scores
      ensures c.Valid()
    {
      Problem(Text(pat, patRole[..|pat|], patTypeSet), Text(word, wordRole[..|word|], wordTypeSet))
    }

    ghost predicate CellIs(cells: Cells, p: nat, w: nat)
      requires p < scores.Length0 && w < scores.Length1 && scores.Length2 == 2
      reads scores
    {
      scores[p, w, 0] == cells(p, w, Miss) && scores[p, w, 1] == cells(p, w, Match)
    }

    ghost predicate RowIs(cells: Cells, p: nat, n: nat)
      requires p < scores.Length0 && n < scores.Length1 && scores.Length2 == 2
      reads scores
    {
      forall w :: 0 <= w <= n ==> CellIs(cells, p, w)
    }

    ghost predicate RowsAre(cells: Cells, rows: nat, n: nat)
      requires rows <= scores.Length0 && n < scores.Length1 && scores.Length2 == 2
      reads scores
    {
      forall p :: 0 <= p < rows ==> RowIs(cells, p, n)
    }

    predicate AllowMatchAt(p: nat, w: nat)
      requires Valid() && WordLowered() && p < |pat| && w < |word|
      reads this, lowPat, patRole, lowWord, wordRole, scores
      ensures AllowMatchAt(p, w) == (Current().InPattern(p) && Current().InWord(w) && AllowMatch(Current(), p, w))
    {
      && lowPat[p] == lowWord[w]
      && (p > 0 || wordRole[w] != TAIL || (word[w] != lowWord[w] && LOWER in wordTypeSet))
    }

    function SkipPenaltyAt(w: nat, last: Action): (s: int)
      requires Valid() && w < |word|
      reads this, lowPat, patRole, wordRole, scores
      ensures Current().InWord(w) && s == SkipPenalty(Current(), w, last)
    {
      (if wordRole[w] == HEAD then 1 else 0) + (if last == Match then 2 else 0)
    }

    function MatchBonusAt(p: nat, w: nat, last: Action): (s: int)
      requires Valid() && p < |pat| && w < |word|
      reads this, lowPat, patRole, wordRole, scores
      ensures Current().InPattern(p) && Current().InWord(w) && s == MatchBonus(Current(), p, w, last)
    {
      1 + (if p == w then 1 else 0)
      + (if (pat[p] == word[w] && (UPPER in patTypeSet || p == w)) || (patRole[p] == HEAD && wordRole[w] == HEAD) then 1 else 0)
      - (if wordRole[w] == TAIL && p > 0 && last == Miss then 3 else 0)
      - (if patRole[p] == HEAD && wordRole[w] == TAIL then 1 else 0)
      - (if p == 0 && wordRole[w] == TAIL then 4 else 0)
    }

    constructor (pattern: seq<Byte>)
      ensures Valid() && word == []
      ensures pat == Truncate(pattern, MAX_PAT)
      ensures PatternReady()
      ensures fresh(lowPat) && fresh(patRole) && fresh(lowWord) && fresh(wordRole) && fresh(scores)
    {
      pat := Truncate(pattern, MAX_PAT);
      lowPat, patRole := new Byte[MAX_PAT], new int[MAX_PAT];
      lowWord, wordRole := new Byte[MAX_WORD], new int[MAX_WORD];
      scores := new ScoreInfo[MAX_PAT + 1, MAX_WORD + 1, 2];
      word, wordTypeSet, patTypeSet, wordContainsPattern := [], {}, {}, false;
      new;
      LowerInto(pat, lowPat);
      FillBoundary(scores, |pat|);
      if |pat| > 0 {
        TypesInRange();
        patTypeSet := CalculateRoles(TypeOf, RoleOf, pat, patRole);
      }
    }

    /** Score[Miss] of the inner loop of buildGraph. */
    method ComputeMiss(p: nat, w: nat, ghost cells: Cells) returns (cell: ScoreInfo)
      requires Valid() && w < |word| && p < |pat|
      requires MissEquation(Current(), cells, p, w) && CellIs(cells, p + 1, w)
      ensures cell == cells(p + 1, w + 1, Miss)
    {
      var matchMissScore := scores[p + 1, w, 1].score;
      var missMissScore := scores[p + 1, w, 0].score;
      if p < |pat| - 1 {
        matchMissScore := matchMissScore - SkipPenaltyAt(w, Match);
        missMissScore := missMissScore - SkipPenaltyAt(w, Miss);
      }
      cell := Stored(Better(matchMissScore, missMissScore));
    }

    /** Score[Match] of the inner loop of buildGraph. */
    method ComputeMatch(p: nat, w: nat, ghost cells: Cells) returns (cell: ScoreInfo)
      requires Valid() && WordLowered() && w < |word| && p < |pat|
      requires Current().InPattern(p) && Current().InWord(w)
      requires MatchEquation(Current(), cells, p, w) && CellIs(cells, p, w)
      ensures cell == cells(p + 1, w + 1, Match)
    {
      if !AllowMatchAt(p, w) {
        cell := AWFUL;
      } else {
        var matchMatchScore := scores[p, w, 1].score + MatchBonusAt(p, w, Match);
        var missMatchScore := scores[p, w, 0].score + MatchBonusAt(p, w, Miss);
        cell := Stored(Better(matchMatchScore, missMatchScore));
      }
    }

    method StoreCell(p: nat, w: nat, missed: ScoreInfo, matched: ScoreInfo, ghost cells: Cells)
      requires Valid() && p <= |pat| && p <= w <= |word| && 0 < w
      requires missed == cells(p, w, Miss) && matched == cells(p, w, Match)
      requires RowIs(cells, p, w - 1) && RowsAre(cells, p, |word|)
      modifies scores
      ensures Valid() && RowIs(cells, p, w) && RowsAre(cells, p, |word|)
    {
      scores[p, w, 0] := missed;
      scores[p, w, 1] := matched;
      forall v | 0 <= v < w
        ensures CellIs(cells, p, v)
      {
        assert old(CellIs(cells, p, v));
      }
      forall q | 0 <= q < p
        ensures RowIs(cells, q, |word|)
      {
        forall v | 0 <= v <= |word|
          ensures CellIs(cells, q, v)
        {
          assert old(RowIs(cells, q, |word|) && CellIs(cells, q, v));
        }
      }
    }

    /** The first loop of buildGraph. */
    method FillFirstRow(ghost cells: Cells)
      requires Valid() && Recurrence(Current(), cells)
      modifies scores
      ensures Valid() && RowIs(cells, 0, |word|)
    {
      ghost var c := Current();
      for w := 0 to |word|
        invariant Valid() && RowIs(cells, 0, w)
      {
        assert CellIs(cells, 0, w);
        assert c.InWord(w) && FirstRowEquation(c, cells, w);
        var skipped := Stored(ScoreInfo(scores[0, w, 0].score - SkipPenaltyAt(w, Miss), Miss));
        StoreCell(0, w + 1, skipped, AWFUL, cells);
      }
    }

    lemma BelowDiagonal(p: nat, cells: Cells)
      requires Valid() && Recurrence(Current(), cells) && 0 < p <= |pat| <= |word|
      ensures RowIs(cells, p, p - 1)
    {
      forall w | 0 <= w <= p - 1
        ensures CellIs(cells, p, w)
      {
        assert Unreachable(cells, p, w);
      }
    }

    /** The second loop of buildGraph, for one pattern character. */
    method FillRow(p: nat, ghost cells: Cells)
      requires Valid() && WordLowered() && Recurrence(Current(), cells) && p < |pat| <= |word|
      requires RowsAre(cells, p + 1, |word|)
      modifies scores
      ensures Valid() && RowsAre(cells, p + 2, |word|)
    {
      ghost var c := Current();
      BelowDiagonal(p + 1, cells);
      for w := p to |word|
        invariant Valid() && WordLowered() && RowIs(cells, p + 1, w) && RowsAre(cells, p + 1, |word|)
      {
        assert CellIs(cells, p + 1, w) && RowIs(cells, p, |word|) && CellIs(cells, p, w);
        EquationsAt(c, cells, p, w);
        var missed := ComputeMiss(p, w, cells);
        var matched := ComputeMatch(p, w, cells);
        StoreCell(p + 1, w + 1, missed, matched, cells);
      }
    }

    method BuildGraph(ghost cells: Cells)
      requires Valid() && WordLowered() && 0 < |pat| <= |word| && Recurrence(Current(), cells)
      modifies scores
      ensures Valid() && RowsAre(cells, |pat| + 1, |word|)
    {
      FillFirstRow(cells);
      for p := 0 to |pat|
        invariant Valid() && WordLowered() && RowsAre(cells, p + 1, |word|)
      {
        FillRow(p, cells);
      }
    }

    /** The constructor's segmentation of the pattern is in place. */
    ghost predicate PatternReady()
      requires Valid()
      reads this, lowPat, patRole, wordRole, scores
    {
      Current().pat == Analyse(pat)
    }

    /** The "cheap subsequence check" of init. */
    method IsSubsequence() returns (found: bool)
      requires Valid() && WordLowered()
      ensures found == (Greedy(Letters(pat, word), |pat|, |word|) == |pat|)
    {
      ghost var same := Letters(pat, word);
      var w, p := 0, 0;
      while p != |pat|
        invariant 0 <= w <= |word| && p == Greedy(same, |pat|, w)
        decreases |word| - w
      {
        if w == |word| {
          return false;
        }
        assert same(p, w) == (lowWord[w] == lowPat[p]);
        if lowWord[w] == lowPat[p] {
          p := p + 1;
        }
        w := w + 1;
      }
      GreedyStays(same, |pat|, w, |word|);
      return true;
    }

    method Init(newWord: seq<Byte>) returns (ok: bool)
      requires Valid() && PatternReady()
      modifies this, lowWord, wordRole
      ensures Valid() && PatternReady() && word == Truncate(newWord, MAX_WORD)
      ensures ok == (|pat| <= |word| && Greedy(Letters(pat, word), |pat|, |word|) == |pat|)
      ensures ok && pat != [] ==> WordLowered() && Current().word == Analyse(word)
    {
      word := Truncate(newWord, MAX_WORD);
      if |pat| > |word| {
        return false;
      }
      if |pat| == 0 {
        return true;
      }
      LowerInto(word, lowWord);
      ok := IsSubsequence();
      if ok {
        TypesInRange();
        wordTypeSet := CalculateRoles(TypeOf, RoleOf, word, wordRole);
      }
    }

    /** match(), with the score not yet scaled to [0, 1]. */
    method MatchWord(newWord: seq<Byte>) returns (verdict: Verdict)
      requires Valid() && PatternReady()
      modifies this, lowWord, wordRole, scores
      ensures Valid() && PatternReady() && word == Truncate(newWord, MAX_WORD)
      ensures verdict == VerdictOf(Problem(Analyse(pat), Analyse(word)))
      ensures verdict.Scored? ==> RowsAre(TableOf(RulesOf(Problem(Analyse(pat), Analyse(word)))), |pat| + 1, |word|)
    {
      var ok := Init(newWord);
      wordContainsPattern := ok;
      if !ok {
        return NoMatch;
      }
      if |pat| == 0 {
        return Perfect;
      }
      ghost var c := Current();
      ghost var cells := TableOf(RulesOf(c));
      RulesAreBounded(c);
      TableSolves(RulesOf(c));
      RecurrenceOf(c, cells);
      BuildGraph(cells);
      assert RowIs(cells, |pat|, |word|) && CellIs(cells, |pat|, |word|);
      var best := Max(scores[|pat|, |word|, 0].score, scores[|pat|, |word|, 1].score);
      if IsAwful(best) {
        return NoMatch;
      }
      return Scored(Min(PERFECT_BONUS * |pat|, Max(0, best)));
    }

    /** The walk of dumpLast back through the table: the action for each word
        character and the score of each letter. */
    method TraceBack(ghost cells: Cells) returns (acts: seq<Action>, letterScores: seq<int>)
      requires Valid() && 0 < |pat| && RowsAre(cells, |pat| + 1, |word|) && PrevInside(cells)
      ensures var last := if cells(|pat|, |word|, Match).score > cells(|pat|, |word|, Miss).score then Match else Miss;
              && acts == Trace(cells, |pat|, |word|, last)
              && letterScores == TraceGains(cells, |pat|, |word|, last)
    {
      ReadCell(cells, |pat|, |word|);
      var last := if scores[|pat|, |word|, 1].score > scores[|pat|, |word|, 0].score then Match else Miss;
      ghost var path, gains := Trace(cells, |pat|, |word|, last), TraceGains(cells, |pat|, |word|, last);
      acts, letterScores := [], [];
      var w, p := |word|, |pat|;
      while w > 0
        invariant 0 <= w <= |word| && 0 <= p <= |pat| && (last == Match ==> p > 0)
        invariant path == Trace(cells, p, w, last) + acts
        invariant gains == TraceGains(cells, p, w, last) + letterScores
      {
        var q, prev, letterScore := StepBack(p, w, last, cells);
        PathStep(cells, p, w, last, q, prev, letterScore, acts, letterScores);
        acts, letterScores := [last] + acts, [letterScore] + letterScores;
        p, last, w := q, prev, w - 1;
      }
    }

    method StepBack(p: nat, w: nat, last: Action, ghost cells: Cells) returns (q: nat, prev: Action, letterScore: int)
      requires Valid() && p <= |pat| && 0 < w <= |word| && (last == Match ==> p > 0)
      requires RowsAre(cells, |pat| + 1, |word|) && PrevInside(cells)
      ensures q == Row(p, last) && prev == cells(p, w, last).prev && (prev == Match ==> q > 0)
      ensures letterScore == cells(p, w, last).score - cells(q, w - 1, prev).score
    {
      ReadCell(cells, p, w);
      var cell := scores[p, w, Index(last)];
      assert cell == cells(p, w, last);
      q := if last == Match then p - 1 else p;
      prev := cell.prev;
      ReadCell(cells, q, w - 1);
      letterScore := cell.score - scores[q, w - 1, Index(prev)].score;
    }

    /** The reconstruction in dumpLast, after a match. */
    method DumpLast() returns (acts: seq<Action>, letterScores: seq<int>)
      requires Valid() && 0 < |pat|
      requires RowsAre(TableOf(RulesOf(Problem(Analyse(pat), Analyse(word)))), |pat| + 1, |word|)
      ensures var r := RulesOf(Problem(Analyse(pat), Analyse(word)));
              && acts == Trace(TableOf(r), |pat|, |word|, FinalAction(r))
              && letterScores == TraceGains(TableOf(r), |pat|, |word|, FinalAction(r))
    {
      ghost var r := RulesOf(Problem(Analyse(pat), Analyse(word)));
      RulesAreBounded(Problem(Analyse(pat), Analyse(word)));
      TablePrevInside(r);
      acts, letterScores := TraceBack(TableOf(r));
    }

    /** No Prev bit leads to a row above the first. */
    ghost predicate PrevInside(cells: Cells)
      requires Valid()
      reads this, lowPat, patRole, scores
    {
      forall p, w, a :: 0 <= p <= |pat| && 0 < w <= |word| && Row(p, a) >= 0 && cells(p, w, a).prev == Match ==> Row(p, a) > 0
    }

    lemma ReadCell(cells: Cells, p: nat, w: nat)
      requires Valid() && p <= |pat| && w <= |word| && RowsAre(cells, |pat| + 1, |word|)
      ensures CellIs(cells, p, w)
    {
      assert RowIs(cells, p, |word|);
    }
  }

  lemma PathStep(cells: Cells, p: int, w: nat, last: Action, q: int, prev: Action, letterScore: int, acts: seq<Action>, letterScores: seq<int>)
    requires 0 < w && q == Row(p, last) && prev == cells(p, w, last).prev
    requires letterScore == cells(p, w, last).score - cells(q, w - 1, prev).score
    ensures Trace(cells, p, w, last) + acts == Trace(cells, q, w - 1, prev) + ([last] + acts)
    ensures TraceGains(cells, p, w, last) + letterScores == TraceGains(cells, q, w - 1, prev) + ([letterScore] + letterScores)
  {
  }

  method LowerInto(text: seq<Byte>, out: array<Byte>)
    requires |text| <= out.Length
    modifies out
    ensures forall i :: 0 <= i < |text| ==> out[i] == Lower(text[i])
  {
    for i := 0 to |text|
      invariant forall j :: 0 <= j < i ==> out[j] == Lower(text[j])
    {
      out[i] := Lower(text[i]);
    }
  }

  /** The part of the table below the diagonal, and the initial state. */
  ghost predicate Boundary(scores: array3<ScoreInfo>, patN: nat)
    requires scores.Length0 > patN && scores.Length1 >= patN && scores.Length1 > 0 && scores.Length2 == 2
    reads scores
  {
    && scores[0, 0, 0] == ScoreInfo(0, Miss) && scores[0, 0, 1] == AWFUL
    && forall p, w, i :: 0 <= p <= patN && 0 <= w < p && 0 <= i < 2 ==> scores[p, w, i] == AWFUL
  }

  method FillBoundary(scores: array3<ScoreInfo>, patN: nat)
    requires scores.Length0 > patN && scores.Length1 >= patN && scores.Length1 > 0 && scores.Length2 == 2
    modifies scores
    ensures Boundary(scores, patN)
  {
    scores[0, 0, 0] := ScoreInfo(0, Miss);
    scores[0, 0, 1] := AWFUL;
    for p := 0 to patN + 1
      invariant p > 0 ==> Boundary(scores, p - 1)
      invariant scores[0, 0, 0] == ScoreInfo(0, Miss) && scores[0, 0, 1] == AWFUL
    {
      for w := 0 to p
        invariant p > 0 ==> Boundary(scores, p - 1)
        invariant scores[0, 0, 0] == ScoreInfo(0, Miss) && scores[0, 0, 1] == AWFUL
        invariant forall v, i :: 0 <= v < w && 0 <= i < 2 ==> scores[p, v, i] == AWFUL
      {
        scores[p, w, 0] := AWFUL;
        scores[p, w, 1] := AWFUL;
      }
    }
  }

  lemma TypesInRange()
    ensures forall c: Byte :: 0 <= TypeOf(c) < 4
  {
  }
}
