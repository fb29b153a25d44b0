/**
 What the matcher's rules say of the bytes of a pattern and a word, without the packed
 tables: where segments start, when a pattern matches at all, what each step of an
 alignment is worth, and when a match is perfect.
 */
module FuzzyMeaning {
  import opened Bytes
  import opened FuzzyScoring
  import opened FuzzyOptimal
  import opened FuzzyMatch

  // ---------- Segments ----------

  predicate Capital(c: Byte) {
    65 <= c <= 90
  }

  /** Lower-case letters, digits and bytes outside ASCII. */
  predicate Small(c: Byte) {
    97 <= c <= 122 || 48 <= c <= 57 || 128 <= c
  }

  /** The same byte, or one ASCII letter in both cases. */
  predicate SameUpToCase(a: Byte, b: Byte) {
    a == b || (Capital(a) && b == a + 32) || (Capital(b) && a == b + 32)
  }

  /** A segment starts at character `i`: it begins the text or follows one that belongs
      to no segment, or is a capital next to a small one: `B` in fooBar, `R` in HTTPRequest. */
  predicate StartsSegment(text: seq<Byte>, i: int)
    requires 0 <= i < |text|
  {
    var c := text[i];
    || (Small(c) && (i == 0 || (!Small(text[i - 1]) && !Capital(text[i - 1]))))
    || (Capital(c) && (i == 0 || !Capital(text[i - 1]) || (i + 1 < |text| && Small(text[i + 1]))))
  }

  predicate InsideSegment(text: seq<Byte>, i: int)
    requires 0 <= i < |text|
  {
    (Small(text[i]) || Capital(text[i])) && !StartsSegment(text, i)
  }

  lemma TypeAtMeaning(text: seq<Byte>, i: int)
    ensures 0 <= TypeAt(TypeOf, text, i) < 4
    ensures TypeAt(TypeOf, text, i) == UPPER <==> 0 <= i < |text| && Capital(text[i])
    ensures TypeAt(TypeOf, text, i) == LOWER <==> 0 <= i < |text| && Small(text[i])
  {
    if 0 <= i < |text| {
      TypeMeaning(text[i]);
    }
  }

  lemma RoleIs(text: seq<Byte>, i: int)
    requires 0 <= i < |text|
    ensures Analyse(text).roles[i] ==
            RoleOf(TypeAt(TypeOf, text, i - 1) * 16 + TypeAt(TypeOf, text, i) * 4 + TypeAt(TypeOf, text, i + 1))
  {
    assert Analyse(text).roles[i] == RoleAt(TypeOf, RoleOf, text, i);
  }

  /** What the types of three neighbours say. */
  lemma RoleByTypes(prev: int, curr: int, next: int)
    requires 0 <= prev < 4 && 0 <= curr < 4 && 0 <= next < 4
    ensures var role := RoleOf(prev * 16 + curr * 4 + next);
            && (role == HEAD <==>
                || (curr == LOWER && prev != LOWER && prev != UPPER)
                || (curr == UPPER && (prev != UPPER || next == LOWER)))
            && (role == TAIL <==> (curr == LOWER || curr == UPPER) && role != HEAD)
  {
    RoleMeaning(prev, curr, next);
  }

  lemma RolesExactly(text: seq<Byte>, i: int)
    requires 0 <= i < |text|
    ensures Analyse(text).roles[i] == HEAD <==> StartsSegment(text, i)
    ensures Analyse(text).roles[i] == TAIL <==> InsideSegment(text, i)
  {
    var prev, curr, next := TypeAt(TypeOf, text, i - 1), TypeAt(TypeOf, text, i), TypeAt(TypeOf, text, i + 1);
    TypeAtMeaning(text, i - 1);
    TypeAtMeaning(text, i);
    TypeAtMeaning(text, i + 1);
    RoleIs(text, i);
    RoleByTypes(prev, curr, next);
  }

  ghost predicate HasCapital(text: seq<Byte>) {
    exists i :: 0 <= i < |text| && Capital(text[i])
  }

  ghost predicate HasSmall(text: seq<Byte>) {
    exists i :: 0 <= i < |text| && Small(text[i])
  }

  lemma {:induction false} TypesUpToExactly(text: seq<Byte>, n: nat)
    requires n <= |text|
    ensures UPPER in TypesUpTo(TypeOf, text, n) <==> exists i :: 0 <= i < n && Capital(text[i])
    ensures LOWER in TypesUpTo(TypeOf, text, n) <==> exists i :: 0 <= i < n && Small(text[i])
  {
    if n > 0 {
      TypesUpToExactly(text, n - 1);
      TypeMeaning(text[n - 1]);
    }
  }

  /** What the bit mask of types tells. */
  lemma TypesExactly(text: seq<Byte>)
    ensures UPPER in Analyse(text).types <==> HasCapital(text)
    ensures LOWER in Analyse(text).types <==> HasSmall(text)
  {
    TypesUpToExactly(text, |text|);
  }

  // ---------- The rules ----------

  function ShortPattern(pattern: seq<Byte>): seq<Byte> {
    if |pattern| <= 63 then pattern else pattern[..63]
  }

  function ShortWord(word: seq<Byte>): seq<Byte> {
    if |word| <= 127 then word else word[..127]
  }

  /** The first pattern character may match here: not inside a segment, unless at a
      capital of a word that is not all capitals. */
  ghost predicate StrongStart(text: seq<Byte>, w: int)
    requires 0 <= w < |text|
  {
    !InsideSegment(text, w) || (Capital(text[w]) && HasSmall(text))
  }

  lemma SameLetterExactly(a: Byte, b: Byte)
    ensures Lower(a) == Lower(b) <==> SameUpToCase(a, b)
    ensures a != Lower(a) <==> Capital(a)
  {
  }

  ghost predicate Allowed(pat: seq<Byte>, text: seq<Byte>, p: int, w: int) {
    0 <= p < |pat| && 0 <= w < |text| && SameUpToCase(pat[p], text[w]) && (p == 0 ==> StrongStart(text, w))
  }

  lemma AllowedByRoles(pat: seq<Byte>, text: seq<Byte>, p: int, w: int)
    requires 0 <= p < |pat| && 0 <= w < |text|
    ensures AllowMatch(Problem(Analyse(pat), Analyse(text)), p, w) <==> Allowed(pat, text, p, w)
  {
    SameLetterExactly(pat[p], text[w]);
    SameLetterExactly(text[w], text[w]);
    RolesExactly(text, w);
    TypesExactly(text);
  }

  /** Skipping the start of a segment costs 1, and skipping right after a match 2 more. */
  function Penalty(text: seq<Byte>, w: int, last: Action): int
    requires 0 <= w < |text|
  {
    match last
    case Miss => if StartsSegment(text, w) then 1 else 0
    case Match => if StartsSegment(text, w) then 3 else 2
  }

  lemma PenaltyByRoles(pat: seq<Byte>, text: seq<Byte>, w: int, last: Action)
    requires 0 <= w < |text|
    ensures SkipPenalty(Problem(Analyse(pat), Analyse(text)), w, last) == Penalty(text, w, last)
  {
    RolesExactly(text, w);
  }

  /** The pattern character fits: both start segments, or they are the same byte where
      case tells something (in the matched beginning, or in a pattern with capitals). */
  ghost predicate Fits(pat: seq<Byte>, text: seq<Byte>, p: int, w: int)
    requires 0 <= p < |pat| && 0 <= w < |text|
  {
    || (StartsSegment(pat, p) && StartsSegment(text, w))
    || (pat[p] == text[w] && (p == w || HasCapital(pat)))
  }

  /** What a match earns: 1, and 1 each for a matched beginning and for fitting; inside a
      segment, 1 less if the pattern starts one here, and 3 less after a gap, or 4 for the
      first character. */
  ghost function Bonus(pat: seq<Byte>, text: seq<Byte>, p: int, w: int, last: Action): int
    requires 0 <= p < |pat| && 0 <= w < |text|
  {
    var good := if Fits(pat, text, p, w) then (if p == w then 3 else 2) else (if p == w then 2 else 1);
    var start := if StartsSegment(pat, p) then 1 else 0;
    if !InsideSegment(text, w) then good
    else if p == 0 then good - start - 4
    else if last == Miss then good - start - 3
    else good - start
  }

  lemma BonusByRoles(pat: seq<Byte>, text: seq<Byte>, p: int, w: int, last: Action)
    requires 0 <= p < |pat| && 0 <= w < |text|
    ensures MatchBonus(Problem(Analyse(pat), Analyse(text)), p, w, last) == Bonus(pat, text, p, w, last)
  {
    RolesExactly(pat, p);
    RolesExactly(text, w);
    TypesExactly(pat);
  }

  /** The rules for this pattern and word, in terms of their bytes. */
  ghost predicate Follow(r: Rules, pat: seq<Byte>, text: seq<Byte>) {
    && r.patN == |pat| && r.wordN == |text|
    && (forall p, w :: r.allow(p, w) <==> Allowed(pat, text, p, w))
    && (forall w, last :: 0 <= w < |text| ==> r.penalty(w, last) == Penalty(text, w, last))
    && (forall p, w, last :: 0 <= p < |pat| && 0 <= w < |text| ==> r.bonus(p, w, last) == Bonus(pat, text, p, w, last))
  }

  /** Main result on the rules: where a match is allowed, what it earns, and what skipping
      costs, exactly. Only 63 and 127 bytes are looked at. */
  lemma RulesExactly(pattern: seq<Byte>, word: seq<Byte>)
    ensures Follow(RulesOf(ProblemOf(pattern, word)), ShortPattern(pattern), ShortWord(word))
  {
    var c, pat, text := ProblemOf(pattern, word), ShortPattern(pattern), ShortWord(word);
    var r := RulesOf(c);
    forall p, w | 0 <= p < |pat| && 0 <= w < |text|
      ensures r.allow(p, w) <==> Allowed(pat, text, p, w)
    {
      RulesAt(c, p, w);
      AllowedByRoles(pat, text, p, w);
    }
    forall w, last | 0 <= w < |text|
      ensures r.penalty(w, last) == Penalty(text, w, last)
    {
      PenaltyByRoles(pat, text, w, last);
    }
    forall p, w, last | 0 <= p < |pat| && 0 <= w < |text|
      ensures r.bonus(p, w, last) == Bonus(pat, text, p, w, last)
    {
      RulesAt(c, p, w);
      BonusByRoles(pat, text, p, w, last);
    }
  }

  lemma AllowAt(r: Rules, pat: seq<Byte>, text: seq<Byte>, p: int, w: int)
    requires Follow(r, pat, text)
    ensures r.allow(p, w) <==> Allowed(pat, text, p, w)
  {
  }

  lemma GainAt(r: Rules, pat: seq<Byte>, text: seq<Byte>, p: int, w: int, last: Action)
    requires Follow(r, pat, text) && 0 <= w < |text|
    ensures Gain(r, p, w, last, Miss) == if p < |pat| then -Penalty(text, w, last) else 0
    ensures 0 <= p < |pat| ==> Gain(r, p, w, last, Match) == Bonus(pat, text, p, w, last)
  {
  }

  // ---------- When a pattern matches ----------

  ghost predicate Increasing(at: seq<nat>) {
    forall p, q :: 0 <= p < q < |at| ==> at[p] < at[q]
  }

  /** The pattern is found at the positions `at`, in order, from a strong start on. */
  ghost predicate FoundAt(pat: seq<Byte>, text: seq<Byte>, at: seq<nat>) {
    && |at| == |pat|
    && (forall p :: 0 <= p < |at| ==> at[p] < |text| && SameUpToCase(pat[p], text[at[p]]))
    && Increasing(at)
    && (pat != [] ==> StrongStart(text, at[0]))
  }

  /** Where `acts` matches. */
  function Positions(acts: seq<Action>): (at: seq<nat>)
    ensures |at| == Matches(acts)
    ensures forall p :: 0 <= p < |at| ==> at[p] < |acts|
    ensures Increasing(at)
  {
    if acts == [] then []
    else
      var w := |acts| - 1;
      Positions(acts[..w]) + if acts[w] == Match then [w] else []
  }

  lemma {:induction false} PositionsAllowed(r: Rules, acts: seq<Action>)
    requires Legal(r, acts)
    ensures forall p :: 0 <= p < Matches(acts) ==> r.allow(p, Positions(acts)[p])
  {
    if acts != [] {
      var before := acts[..|acts| - 1];
      PositionsAllowed(r, before);
      assert Positions(acts)[..|Positions(before)|] == Positions(before);
    }
  }

  ghost predicate AllAllowed(r: Rules, at: seq<nat>) {
    |at| <= r.patN && forall p :: 0 <= p < |at| ==> r.allow(p, at[p])
  }

  lemma OneMoreAction(r: Rules, before: seq<Action>, n: nat, a: Action) returns (acts: seq<Action>)
    requires Legal(r, before) && Matches(before) == n && |before| < r.wordN
    requires a == Match ==> n < r.patN && r.allow(n, |before|)
    ensures Legal(r, acts) && |acts| == |before| + 1 && Matches(acts) == n + if a == Match then 1 else 0
  {
    AlignmentSnoc(r, before, a);
    acts := before + [a];
  }

  /** Matching at the first `n` positions, which lie before `w`. */
  lemma {:induction false} ActionsFor(r: Rules, at: seq<nat>, n: nat, w: nat) returns (acts: seq<Action>)
    requires Increasing(at) && AllAllowed(r, at) && w <= r.wordN
    requires n <= |at| && (n > 0 ==> at[n - 1] < w)
    ensures Legal(r, acts) && |acts| == w && Matches(acts) == n
  {
    if w == 0 {
      acts := [];
    } else if n > 0 && at[n - 1] == w - 1 {
      acts := ActionsFor(r, at, n - 1, w - 1);
      acts := OneMoreAction(r, acts, n - 1, Match);
    } else {
      acts := ActionsFor(r, at, n, w - 1);
      acts := OneMoreAction(r, acts, n, Miss);
    }
  }

  lemma FoundIsAllowed(r: Rules, pat: seq<Byte>, text: seq<Byte>, at: seq<nat>)
    requires Follow(r, pat, text) && FoundAt(pat, text, at)
    ensures AllAllowed(r, at)
  {
    forall p | 0 <= p < |at|
      ensures r.allow(p, at[p])
    {
      AllowAt(r, pat, text, p, at[p]);
    }
  }

  lemma AllowedIsFound(r: Rules, pat: seq<Byte>, text: seq<Byte>, at: seq<nat>)
    requires Follow(r, pat, text) && |at| == |pat| && Increasing(at) && AllAllowed(r, at)
    ensures FoundAt(pat, text, at)
  {
    forall p | 0 <= p < |at|
      ensures Allowed(pat, text, p, at[p])
    {
      AllowAt(r, pat, text, p, at[p]);
    }
  }

  lemma FoundIsComplete(r: Rules, pat: seq<Byte>, text: seq<Byte>, at: seq<nat>) returns (acts: seq<Action>)
    requires Follow(r, pat, text) && FoundAt(pat, text, at)
    ensures Complete(r, acts)
  {
    FoundIsAllowed(r, pat, text, at);
    acts := ActionsFor(r, at, |at|, |text|);
  }

  lemma CompleteIsFound(r: Rules, pat: seq<Byte>, text: seq<Byte>, acts: seq<Action>)
    requires Follow(r, pat, text) && Complete(r, acts)
    ensures FoundAt(pat, text, Positions(acts))
  {
    PositionsAllowed(r, acts);
    AllowedIsFound(r, pat, text, Positions(acts));
  }

  /** Main result: a pattern matches a word exactly when its characters are found in the
      word in order, up to ASCII case, the first of them at a strong start. */
  lemma MatchesExactly(pattern: seq<Byte>, word: seq<Byte>)
    ensures VerdictOf(ProblemOf(pattern, word)) != NoMatch <==>
            exists at :: FoundAt(ShortPattern(pattern), ShortWord(word), at)
  {
    var r, pat, text := RulesOf(ProblemOf(pattern, word)), ShortPattern(pattern), ShortWord(word);
    RulesExactly(pattern, word);
    MatchIsOptimal(pattern, word);
    if acts :| Complete(r, acts) {
      CompleteIsFound(r, pat, text, acts);
    }
    if at :| FoundAt(pat, text, at) {
      var acts := FoundIsComplete(r, pat, text, at);
    }
  }

  lemma CapitalsAreOneSegment(pat: seq<Byte>, text: seq<Byte>)
    requires pat != [] && text != [] && !SameUpToCase(pat[0], text[0])
    requires forall i :: 0 <= i < |text| ==> Capital(text[i])
    ensures forall at :: !FoundAt(pat, text, at)
  {
    assert forall i :: 0 < i < |text| ==> !StrongStart(text, i);
  }

  /** In a word of capitals a pattern must begin with the first letter: `b` does not match
      NDEBUG. */
  lemma CapitalsMatchAtTheFront(pattern: seq<Byte>, word: seq<Byte>)
    requires pattern != [] && word != [] && !SameUpToCase(pattern[0], word[0])
    requires forall i :: 0 <= i < |word| ==> Capital(word[i])
    ensures VerdictOf(ProblemOf(pattern, word)) == NoMatch
  {
    CapitalsAreOneSegment(ShortPattern(pattern), ShortWord(word));
    MatchesExactly(pattern, word);
  }

  lemma OneLetterIsFound(pat: seq<Byte>, text: seq<Byte>, i: nat)
    requires |pat| == 1 && i < |text| && SameUpToCase(pat[0], text[i]) && StrongStart(text, i)
    ensures FoundAt(pat, text, [i])
  {
  }

  /** A capital may start a segment that was missed, so one letter matches it in a word that
      is not all capitals: `b` matches ABCDef. */
  lemma CapitalMatchesInside(pattern: seq<Byte>, word: seq<Byte>, i: nat)
    requires |pattern| == 1 && i < |word| <= 127
    requires Capital(word[i]) && SameUpToCase(pattern[0], word[i]) && HasSmall(word)
    ensures VerdictOf(ProblemOf(pattern, word)) != NoMatch
  {
    OneLetterIsFound(pattern, word, i);
    assert ShortPattern(pattern) == pattern && ShortWord(word) == word;
    assert FoundAt(ShortPattern(pattern), ShortWord(word), [i]);
    MatchesExactly(pattern, word);
  }

  // ---------- Perfect matches ----------

  /** The pattern lies on the beginning of the word: each character the same up to case, in
      the same case or at starts of segments, and not starting one inside another. */
  ghost predicate LiesOn(pat: seq<Byte>, text: seq<Byte>, n: nat) {
    n <= |pat| && n <= |text| && forall i :: 0 <= i < n ==> FitsAt(pat, text, i)
  }

  predicate FitsAt(pat: seq<Byte>, text: seq<Byte>, i: nat)
    requires i < |pat| && i < |text|
  {
    && SameUpToCase(pat[i], text[i])
    && (pat[i] == text[i] || (StartsSegment(pat, i) && StartsSegment(text, i)))
    && !(StartsSegment(pat, i) && InsideSegment(text, i))
  }

  /** The most a match can earn is 3, and only there. */
  lemma BonusIsPerfect(pat: seq<Byte>, text: seq<Byte>, p: nat, w: nat, last: Action)
    requires p < |pat| && w < |text| && SameUpToCase(pat[p], text[w])
    ensures Bonus(pat, text, p, w, last) <= 3
    ensures Bonus(pat, text, p, w, last) == 3 ==> p == w && FitsAt(pat, text, p)
    ensures p == w && FitsAt(pat, text, p) && (p == 0 <==> last == Miss) ==> Bonus(pat, text, p, w, last) == 3
  {
  }

  /** No legal sequence earns more than 3 a match, and one that does lies on the word. */
  lemma {:induction false} PerfectLiesOn(r: Rules, pat: seq<Byte>, text: seq<Byte>, acts: seq<Action>)
    requires Follow(r, pat, text) && Legal(r, acts)
    ensures Score(r, acts) <= 3 * Matches(acts)
    ensures Score(r, acts) == 3 * Matches(acts) ==> LiesOn(pat, text, Matches(acts))
  {
    if acts != [] {
      var before, w := acts[..|acts| - 1], |acts| - 1;
      PerfectLiesOn(r, pat, text, before);
      var p := Matches(before);
      GainAt(r, pat, text, p, w, Last(before));
      if acts[w] == Match {
        AllowAt(r, pat, text, p, w);
        BonusIsPerfect(pat, text, p, w, Last(before));
      }
    }
  }

  function AllMatch(n: nat): (acts: seq<Action>)
    ensures |acts| == n
  {
    if n == 0 then [] else AllMatch(n - 1) + [Match]
  }

  lemma FrontIsStrong(text: seq<Byte>)
    requires text != []
    ensures StrongStart(text, 0)
  {
  }

  /** Matching the beginning of the word earns 3 each. */
  lemma {:induction false} FrontEarnsAll(r: Rules, pat: seq<Byte>, text: seq<Byte>, n: nat)
    requires Follow(r, pat, text) && LiesOn(pat, text, n)
    ensures var acts := AllMatch(n);
            Legal(r, acts) && Matches(acts) == n && Score(r, acts) == 3 * n && Last(acts) == if n == 0 then Miss else Match
  {
    if n > 0 {
      var before := AllMatch(n - 1);
      FrontEarnsAll(r, pat, text, n - 1);
      assert FitsAt(pat, text, n - 1);
      FrontIsStrong(text);
      AllowAt(r, pat, text, n - 1, n - 1);
      GainAt(r, pat, text, n - 1, n - 1, Last(before));
      BonusIsPerfect(pat, text, n - 1, n - 1, Last(before));
      AlignmentSnoc(r, before, Match);
    }
  }

  predicate AllMatched(r: Rules, acts: seq<Action>, score: int) {
    Legal(r, acts) && Matches(acts) == r.patN && Score(r, acts) == score
  }

  lemma SkipIsFree(r: Rules, acts: seq<Action>, score: int)
    requires AllMatched(r, acts, score) && |acts| < r.wordN
    ensures AllMatched(r, acts + [Miss], score)
  {
    AlignmentSnoc(r, acts, Miss);
  }

  /** Skipping the rest of the word is free. */
  lemma {:induction false} RestIsFree(r: Rules, acts: seq<Action>, score: int) returns (all: seq<Action>)
    requires AllMatched(r, acts, score) && |acts| <= r.wordN
    ensures AllMatched(r, all, score) && |all| == r.wordN
    decreases r.wordN - |acts|
  {
    all := acts;
    if |acts| < r.wordN {
      SkipIsFree(r, acts, score);
      all := RestIsFree(r, acts + [Miss], score);
    }
  }

  lemma FrontIsComplete(r: Rules, pat: seq<Byte>, text: seq<Byte>) returns (acts: seq<Action>)
    requires Follow(r, pat, text) && LiesOn(pat, text, |pat|)
    ensures Complete(r, acts) && Score(r, acts) == 3 * |pat|
  {
    FrontEarnsAll(r, pat, text, |pat|);
    acts := RestIsFree(r, AllMatch(|pat|), 3 * |pat|);
  }

  /** Main result: the score is the highest there is exactly when the pattern lies on the
      beginning of the word. */
  lemma PerfectExactly(pattern: seq<Byte>, word: seq<Byte>)
    requires pattern != []
    ensures var pat, text := ShortPattern(pattern), ShortWord(word);
            VerdictOf(ProblemOf(pattern, word)) == Scored(3 * |pat|) <==> LiesOn(pat, text, |pat|)
  {
    var r, pat, text := RulesOf(ProblemOf(pattern, word)), ShortPattern(pattern), ShortWord(word);
    var v := VerdictOf(ProblemOf(pattern, word));
    RulesExactly(pattern, word);
    MatchIsOptimal(pattern, word);
    if v.Scored? {
      var acts :| IsBest(r, acts) && v.score == Min(PERFECT_BONUS * r.patN, Max(0, Score(r, acts)));
      PerfectLiesOn(r, pat, text, acts);
    }
    if LiesOn(pat, text, |pat|) {
      var front := FrontIsComplete(r, pat, text);
    }
  }

  lemma PrefixFits(pat: seq<Byte>, text: seq<Byte>, i: nat)
    requires pat <= text && i < |pat|
    ensures FitsAt(pat, text, i)
  {
  }

  /** A beginning of a word, in the same case, is a perfect match for it; so is the word. */
  lemma PrefixIsPerfect(pattern: seq<Byte>, word: seq<Byte>)
    requires pattern != [] && |pattern| <= 63 && pattern <= word
    ensures VerdictOf(ProblemOf(pattern, word)) == Scored(3 * |pattern|)
  {
    var pat, text := ShortPattern(pattern), ShortWord(word);
    assert pat <= text;
    forall i | 0 <= i < |pat|
      ensures FitsAt(pat, text, i)
    {
      PrefixFits(pat, text, i);
    }
    PerfectExactly(pattern, word);
  }
}
