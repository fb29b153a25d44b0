/**
 The dynamic program of FuzzyMatcher finds the best alignment, although it marks
 unreachable states with a finite sentinel and keeps one bit of history a cell.
 Nothing here depends on how characters score, only on the bounds of the scores.
 */
module FuzzyOptimal {
  import opened FuzzyScoring

  /** Which matches are allowed, what skipping word character w costs after a
      Last action, and what matching pattern character p at w earns. */
  datatype Rules = Rules(
    patN: nat,
    wordN: nat,
    allow: (int, int) -> bool,
    penalty: (int, Action) -> int,
    bonus: (int, int, Action) -> int)

  ghost predicate Bounded(r: Rules) {
    && (forall w, a :: 0 <= r.penalty(w, a) <= 3)
    && (forall p, w, a :: -4 <= r.bonus(p, w, a) <= PERFECT_BONUS)
  }

  // ---------- Alignments ----------

  function Matches(acts: seq<Action>): (n: nat)
    ensures n <= |acts|
  {
    if acts == [] then 0
    else Matches(acts[..|acts| - 1]) + if acts[|acts| - 1] == Match then 1 else 0
  }

  function Last(acts: seq<Action>): Action {
    if acts == [] then Miss else acts[|acts| - 1]
  }

  /** One action per word character; matches take the pattern in order, and each
      must be allowed. */
  predicate Legal(r: Rules, acts: seq<Action>)
    ensures Legal(r, acts) ==> |acts| <= r.wordN && Matches(acts) <= r.patN
  {
    if acts == [] then true
    else
      var before, w := acts[..|acts| - 1], |acts| - 1;
      && w < r.wordN
      && Legal(r, before)
      && (acts[w] == Match ==> Matches(before) < r.patN && r.allow(Matches(before), w))
  }

  /** Skipping is free once the whole pattern is matched. */
  function SkipCost(r: Rules, p: int, w: int, last: Action): int {
    if p < r.patN then r.penalty(w, last) else 0
  }

  /** What doing `a` at word character `w` adds, `p` pattern characters being
      matched before and `last` being the previous action. */
  function Gain(r: Rules, p: int, w: int, last: Action, a: Action): int {
    match a
    case Match => r.bonus(p, w, last)
    case Miss => -SkipCost(r, p, w, last)
  }

  function Score(r: Rules, acts: seq<Action>): int {
    if acts == [] then 0
    else
      var before, w := acts[..|acts| - 1], |acts| - 1;
      Score(r, before) + Gain(r, Matches(before), w, Last(before), acts[w])
  }

  /** A legal alignment of the whole word with the whole pattern. */
  predicate Complete(r: Rules, acts: seq<Action>) {
    |acts| == r.wordN && Legal(r, acts) && Matches(acts) == r.patN
  }

  // ---------- The table ----------

  datatype ScoreInfo = ScoreInfo(score: int, prev: Action)

  const AWFUL := ScoreInfo(AWFUL_SCORE, Miss)

  /** `x > y ? {x, Match} : {y, Miss}` */
  function Better(x: int, y: int): ScoreInfo {
    if x > y then ScoreInfo(x, Match) else ScoreInfo(y, Miss)
  }

  /** The content of Scores[p][w][a] after buildGraph. */
  function Cell(r: Rules, p: nat, w: nat, a: Action): ScoreInfo
    decreases w
  {
    if w < p then AWFUL
    else if p == 0 then
      if a == Match then AWFUL
      else if w == 0 then ScoreInfo(0, Miss)
      else ScoreInfo(Cell(r, 0, w - 1, Miss).score - SkipCost(r, 0, w - 1, Miss), Miss)
    else if a == Miss then
      Better(Cell(r, p, w - 1, Match).score - SkipCost(r, p, w - 1, Match),
             Cell(r, p, w - 1, Miss).score - SkipCost(r, p, w - 1, Miss))
    else if !r.allow(p - 1, w - 1) then AWFUL
    else
      Better(Cell(r, p - 1, w - 1, Match).score + r.bonus(p - 1, w - 1, Match),
             Cell(r, p - 1, w - 1, Miss).score + r.bonus(p - 1, w - 1, Miss))
  }

  /** A score table as a function of row, column and last action. */
  type Cells = (int, int, Action) -> ScoreInfo

  function TableOf(r: Rules): Cells {
    (p, w, a) => if p >= 0 && w >= 0 then Cell(r, p, w, a) else AWFUL
  }

  // ---------- The sentinel ----------

  /** Scores come in two kinds that never mix: real ones, at least -4 per word
      character, and sentinels, at most the sentinel plus the bonuses. */
  predicate InRange(s: int, p: nat, w: nat) {
    && AWFUL_SCORE - 4 * w <= s <= PERFECT_BONUS * p
    && (s >= -4 * w || s <= AWFUL_SCORE + PERFECT_BONUS * p)
  }

  lemma SkipInRange(s: int, cost: int, p: nat, w: nat)
    requires InRange(s, p, w) && 0 <= cost <= 3
    ensures InRange(s - cost, p, w + 1)
  {
  }

  lemma MatchInRange(s: int, bonus: int, p: nat, w: nat)
    requires InRange(s, p, w) && -4 <= bonus <= PERFECT_BONUS
    ensures InRange(s + bonus, p + 1, w + 1)
  {
  }

  lemma {:induction false} ScoreRange(r: Rules, p: nat, w: nat, a: Action)
    requires Bounded(r)
    ensures InRange(Cell(r, p, w, a).score, p, w)
    decreases w
  {
    if w >= p && w > 0 {
      if a == Miss {
        SkipRange(r, p, w, Miss);
        SkipRange(r, p, w, Match);
      } else if p > 0 {
        MatchRange(r, p, w, Miss);
        MatchRange(r, p, w, Match);
      }
    }
  }

  lemma {:induction false} SkipRange(r: Rules, p: nat, w: nat, last: Action)
    requires Bounded(r) && w > 0
    ensures InRange(Cell(r, p, w - 1, last).score - SkipCost(r, p, w - 1, last), p, w)
    decreases w, 0
  {
    ScoreRange(r, p, w - 1, last);
    SkipInRange(Cell(r, p, w - 1, last).score, SkipCost(r, p, w - 1, last), p, w - 1);
  }

  lemma {:induction false} MatchRange(r: Rules, p: nat, w: nat, last: Action)
    requires Bounded(r) && w > 0 && p > 0
    ensures InRange(Cell(r, p - 1, w - 1, last).score + r.bonus(p - 1, w - 1, last), p, w)
    decreases w, 0
  {
    ScoreRange(r, p - 1, w - 1, last);
    MatchInRange(Cell(r, p - 1, w - 1, last).score, r.bonus(p - 1, w - 1, last), p - 1, w - 1);
  }

  /** The signed 15-bit field in which the source keeps a score. */
  function Field15(x: int): int {
    (x + 0x4000) % 0x8000 - 0x4000
  }

  /** Every score fits its bit field, and isAwful separates the two kinds. */
  lemma ScoresFit(r: Rules, p: nat, w: nat, a: Action)
    requires Bounded(r) && p <= MAX_PAT && w <= MAX_WORD
    ensures Field15(Cell(r, p, w, a).score) == Cell(r, p, w, a).score
    ensures !IsAwful(Cell(r, p, w, a).score) <==> Cell(r, p, w, a).score >= -4 * w
  {
    ScoreRange(r, p, w, a);
  }

  /** A score as it reads back from its bit field. */
  function Stored(cell: ScoreInfo): ScoreInfo {
    ScoreInfo(Field15(cell.score), cell.prev)
  }

  // The assignments of buildGraph, with the truncation they imply.

  predicate Unreachable(t: Cells, p: int, w: int) {
    t(p, w, Miss) == AWFUL && t(p, w, Match) == AWFUL
  }

  predicate FirstRowStep(r: Rules, t: Cells, w: int) {
    && t(0, w + 1, Miss) == Stored(ScoreInfo(t(0, w, Miss).score - r.penalty(w, Miss), Miss))
    && t(0, w + 1, Match) == AWFUL
  }

  predicate MissStep(r: Rules, t: Cells, p: int, w: int) {
    var free := p + 1 == r.patN;
    t(p + 1, w + 1, Miss) ==
    Stored(Better(t(p + 1, w, Match).score - (if free then 0 else r.penalty(w, Match)),
                  t(p + 1, w, Miss).score - (if free then 0 else r.penalty(w, Miss))))
  }

  predicate MatchStep(r: Rules, t: Cells, p: int, w: int) {
    t(p + 1, w + 1, Match) ==
    if !r.allow(p, w) then AWFUL
    else Stored(Better(t(p, w, Match).score + r.bonus(p, w, Match), t(p, w, Miss).score + r.bonus(p, w, Miss)))
  }

  ghost predicate Solves(r: Rules, t: Cells) {
    && t(0, 0, Miss) == ScoreInfo(0, Miss) && t(0, 0, Match) == AWFUL
    && (forall p, w :: 0 <= w < p <= r.patN ==> Unreachable(t, p, w))
    && (forall w :: 0 <= w < r.wordN ==> FirstRowStep(r, t, w))
    && (forall p, w :: 0 <= p < r.patN && p <= w < r.wordN ==> MissStep(r, t, p, w) && MatchStep(r, t, p, w))
  }

  lemma TableAt(r: Rules, p: int, w: nat, a: Action)
    requires p >= 0
    ensures TableOf(r)(p, w, a) == Cell(r, p, w, a)
  {
  }

  /** A score of the table fits its field. */
  lemma StoredCell(r: Rules, p: nat, w: nat, a: Action)
    requires Bounded(r) && p <= MAX_PAT && w <= MAX_WORD
    ensures Stored(Cell(r, p, w, a)) == Cell(r, p, w, a)
  {
    ScoresFit(r, p, w, a);
  }

  lemma TableFirstRow(r: Rules, w: nat)
    requires Bounded(r) && 0 < r.patN && w < MAX_WORD
    ensures FirstRowStep(r, TableOf(r), w)
  {
    StoredCell(r, 0, w + 1, Miss);
  }

  lemma TableMissStep(r: Rules, p: nat, w: nat)
    requires Bounded(r) && p < r.patN <= MAX_PAT && p <= w < r.wordN <= MAX_WORD
    ensures MissStep(r, TableOf(r), p, w)
  {
    StoredCell(r, p + 1, w + 1, Miss);
  }

  lemma CellOfMatch(r: Rules, p: nat, w: nat)
    requires p <= w
    ensures Cell(r, p + 1, w + 1, Match) ==
            if !r.allow(p, w) then AWFUL
            else Better(Cell(r, p, w, Match).score + r.bonus(p, w, Match), Cell(r, p, w, Miss).score + r.bonus(p, w, Miss))
  {
  }

  lemma TableMatchStep(r: Rules, p: nat, w: nat)
    requires Bounded(r) && p < r.patN <= MAX_PAT && p <= w < r.wordN <= MAX_WORD
    ensures MatchStep(r, TableOf(r), p, w)
  {
    CellOfMatch(r, p, w);
    StoredCell(r, p + 1, w + 1, Match);
    TableAt(r, p + 1, w + 1, Match);
    TableAt(r, p, w, Match);
    TableAt(r, p, w, Miss);
  }

  /** The table is a solution of the assignments although each truncates. */
  lemma TableSolves(r: Rules)
    requires Bounded(r) && 0 < r.patN <= MAX_PAT && r.wordN <= MAX_WORD
    ensures Solves(r, TableOf(r))
  {
    forall w | 0 <= w < r.wordN
      ensures FirstRowStep(r, TableOf(r), w)
    {
      TableFirstRow(r, w);
    }
    forall p, w | 0 <= p < r.patN && p <= w < r.wordN
      ensures MissStep(r, TableOf(r), p, w) && MatchStep(r, TableOf(r), p, w)
    {
      TableMissStep(r, p, w);
      TableMatchStep(r, p, w);
    }
  }

  // ---------- Optimality ----------

  /** No legal alignment that ends in this state scores more than its cell. */
  lemma {:induction false} CellIsUpperBound(r: Rules, acts: seq<Action>)
    requires Legal(r, acts)
    ensures Score(r, acts) <= Cell(r, Matches(acts), |acts|, Last(acts)).score
    decreases |acts|
  {
    if acts != [] {
      CellIsUpperBound(r, acts[..|acts| - 1]);
    }
  }

  /** The score of a legal alignment is a real one. */
  lemma {:induction false} ScoreIsReal(r: Rules, acts: seq<Action>)
    requires Bounded(r) && Legal(r, acts)
    ensures Score(r, acts) >= -4 * |acts|
  {
    if acts != [] {
      ScoreIsReal(r, acts[..|acts| - 1]);
    }
  }

  /** The row to the left of a cell that `a` came from. */
  function Row(p: int, a: Action): int {
    if a == Match then p - 1 else p
  }

  /** Skipping everything so far is always possible. */
  lemma {:induction false} RowZeroIsReal(r: Rules, w: nat)
    requires Bounded(r)
    ensures Cell(r, 0, w, Miss).score >= -4 * w
  {
    if w > 0 {
      RowZeroIsReal(r, w - 1);
    }
  }

  /** Following Prev never leaves the table on the pattern side. */
  lemma PrevStaysInside(r: Rules, p: nat, w: nat, a: Action)
    requires Bounded(r) && 0 < w <= MAX_WORD && (a == Match ==> p > 0)
    ensures Cell(r, p, w, a).prev == Match ==> Row(p, a) > 0
  {
    RowZeroIsReal(r, w - 1);
    if p == 1 && a == Match && r.allow(0, w - 1) {
      assert Cell(r, 0, w - 1, Match) == AWFUL;
      assert r.bonus(0, w - 1, Match) <= 3 && r.bonus(0, w - 1, Miss) >= -4;
    }
  }

  lemma TablePrevInside(r: Rules)
    requires Bounded(r)
    ensures forall p, w, a :: 0 <= p && 0 < w <= MAX_WORD && Row(p, a) >= 0 && TableOf(r)(p, w, a).prev == Match ==> Row(p, a) > 0
  {
    forall p, w, a | 0 <= p && 0 < w <= MAX_WORD && Row(p, a) >= 0 && TableOf(r)(p, w, a).prev == Match
      ensures Row(p, a) > 0
    {
      PrevStaysInside(r, p, w, a);
    }
  }

  /** The alignment that the Prev bits spell, followed back from a cell. */
  function Trace(t: Cells, p: int, w: nat, a: Action): (acts: seq<Action>)
    ensures |acts| == w
    decreases w
  {
    if w == 0 then [] else Trace(t, Row(p, a), w - 1, t(p, w, a).prev) + [a]
  }

  /** The differences of cumulative scores along that path. */
  function TraceGains(t: Cells, p: int, w: nat, a: Action): (gains: seq<int>)
    ensures |gains| == w
    decreases w
  {
    if w == 0 then []
    else
      var prev := t(p, w, a).prev;
      TraceGains(t, Row(p, a), w - 1, prev) + [t(p, w, a).score - t(Row(p, a), w - 1, prev).score]
  }

  /** A real cell was computed from a real cell, with the gain of its action. */
  lemma PrevIsReal(r: Rules, p: nat, w: nat, a: Action)
    requires Bounded(r) && p <= MAX_PAT && 0 < w <= MAX_WORD
    requires Cell(r, p, w, a).score >= -4 * w
    ensures a == Match ==> p > 0 && r.allow(p - 1, w - 1)
    ensures var q := Row(p, a);
            var prev := Cell(r, p, w, a).prev;
            && Cell(r, q, w - 1, prev).score >= -4 * (w - 1)
            && Cell(r, p, w, a).score == Cell(r, q, w - 1, prev).score + Gain(r, q, w - 1, prev, a)
  {
    var prev := Cell(r, p, w, a).prev;
    if a == Miss {
      ScoreRange(r, p, w - 1, prev);
    } else if p > 0 {
      ScoreRange(r, p - 1, w - 1, prev);
    }
  }

  lemma AlignmentSnoc(r: Rules, acts: seq<Action>, a: Action)
    requires Legal(r, acts) && |acts| < r.wordN
    requires a == Match ==> Matches(acts) < r.patN && r.allow(Matches(acts), |acts|)
    ensures Legal(r, acts + [a])
    ensures Last(acts + [a]) == a
    ensures Matches(acts + [a]) == Matches(acts) + if a == Match then 1 else 0
    ensures Score(r, acts + [a]) == Score(r, acts) + Gain(r, Matches(acts), |acts|, Last(acts), a)
  {
    assert (acts + [a])[..|acts|] == acts;
  }

  /** The path back from a cell is a legal alignment that attains its score. */
  predicate TraceOk(r: Rules, t: Cells, p: int, w: nat, a: Action) {
    var acts := Trace(t, p, w, a);
    && Legal(r, acts) && Matches(acts) == p && Last(acts) == a
    && Score(r, acts) == t(p, w, a).score
  }

  lemma {:induction false} TraceAttainsCell(r: Rules, p: nat, w: nat, a: Action)
    requires Bounded(r) && p <= r.patN <= MAX_PAT && w <= r.wordN <= MAX_WORD
    requires Cell(r, p, w, a).score >= -4 * w
    ensures TraceOk(r, TableOf(r), p, w, a)
    decreases w
  {
    if w > 0 {
      PrevIsReal(r, p, w, a);
      TraceAttainsCell(r, Row(p, a), w - 1, Cell(r, p, w, a).prev);
      TraceStepBack(r, p, w, a);
    }
  }

  lemma TraceStepBack(r: Rules, p: nat, w: nat, a: Action)
    requires Bounded(r) && p <= r.patN <= MAX_PAT && 0 < w <= r.wordN <= MAX_WORD
    requires Cell(r, p, w, a).score >= -4 * w
    requires TraceOk(r, TableOf(r), Row(p, a), w - 1, Cell(r, p, w, a).prev)
    ensures TraceOk(r, TableOf(r), p, w, a)
  {
    var t, prev := TableOf(r), Cell(r, p, w, a).prev;
    PrevIsReal(r, p, w, a);
    TableAt(r, p, w, a);
    TableAt(r, Row(p, a), w - 1, prev);
    TraceStep(r, t, p, w, a);
  }

  lemma TraceStep(r: Rules, t: Cells, p: nat, w: nat, a: Action)
    requires 0 < w <= r.wordN && p <= r.patN && (a == Match ==> p > 0 && r.allow(p - 1, w - 1))
    requires TraceOk(r, t, Row(p, a), w - 1, t(p, w, a).prev)
    requires t(p, w, a).score == t(Row(p, a), w - 1, t(p, w, a).prev).score + Gain(r, Row(p, a), w - 1, t(p, w, a).prev, a)
    ensures TraceOk(r, t, p, w, a)
  {
    AlignmentSnoc(r, Trace(t, Row(p, a), w - 1, t(p, w, a).prev), a);
  }

  // ---------- The letter scores ----------

  /** The gains are the scores of the single letters of `acts`. */
  ghost predicate LetterScores(r: Rules, acts: seq<Action>, gains: seq<int>) {
    |gains| == |acts| && forall i :: 0 <= i < |acts| ==> gains[i] == Score(r, acts[..i + 1]) - Score(r, acts[..i])
  }

  lemma LetterScoresSnoc(r: Rules, acts: seq<Action>, gains: seq<int>, a: Action, gain: int)
    requires LetterScores(r, acts, gains) && gain == Score(r, acts + [a]) - Score(r, acts)
    ensures LetterScores(r, acts + [a], gains + [gain])
  {
    var longer := acts + [a];
    forall i | 0 <= i < |longer|
      ensures (gains + [gain])[i] == Score(r, longer[..i + 1]) - Score(r, longer[..i])
    {
      assert longer[..i] == acts[..i];
      assert if i < |acts| then longer[..i + 1] == acts[..i + 1] else longer[..i + 1] == longer && acts[..i] == acts;
    }
  }

  /** Every cell on the path back from this one attains its score. */
  predicate PathOk(r: Rules, t: Cells, p: int, w: nat, a: Action)
    decreases w
  {
    TraceOk(r, t, p, w, a) && (w > 0 ==> PathOk(r, t, Row(p, a), w - 1, t(p, w, a).prev))
  }

  lemma {:induction false} RealPathOk(r: Rules, p: nat, w: nat, a: Action)
    requires Bounded(r) && p <= r.patN <= MAX_PAT && w <= r.wordN <= MAX_WORD
    requires Cell(r, p, w, a).score >= -4 * w
    ensures PathOk(r, TableOf(r), p, w, a)
    decreases w
  {
    TraceAttainsCell(r, p, w, a);
    if w > 0 {
      PrevIsReal(r, p, w, a);
      RealPathOk(r, Row(p, a), w - 1, Cell(r, p, w, a).prev);
    }
  }

  lemma {:induction false} TraceGainsAreLetterScores(r: Rules, t: Cells, p: int, w: nat, a: Action)
    requires PathOk(r, t, p, w, a)
    ensures LetterScores(r, Trace(t, p, w, a), TraceGains(t, p, w, a))
    decreases w
  {
    if w > 0 {
      var q, prev := Row(p, a), t(p, w, a).prev;
      TraceGainsAreLetterScores(r, t, q, w - 1, prev);
      var gain := t(p, w, a).score - t(q, w - 1, prev).score;
      LetterScoresSnoc(r, Trace(t, q, w - 1, prev), TraceGains(t, q, w - 1, prev), a, gain);
    }
  }

  // ---------- The cheap rejection ----------

  /** How much of the pattern init's greedy scan has found after w characters. */
  function Greedy(same: (int, int) -> bool, patN: nat, w: nat): (g: nat)
    ensures g <= patN && g <= w
  {
    if w == 0 then 0
    else
      var g := Greedy(same, patN, w - 1);
      if g < patN && same(g, w - 1) then g + 1 else g
  }

  /** The scan is never behind any legal alignment, so when it fails to find the
      whole pattern no legal alignment does. */
  lemma {:induction false} GreedyIsAhead(r: Rules, same: (int, int) -> bool, acts: seq<Action>)
    requires Legal(r, acts)
    requires forall p, w :: r.allow(p, w) ==> same(p, w)
    ensures Matches(acts) <= Greedy(same, r.patN, |acts|)
  {
    if acts != [] {
      GreedyIsAhead(r, same, acts[..|acts| - 1]);
    }
  }

  lemma {:induction false} GreedyStays(same: (int, int) -> bool, patN: nat, v: nat, w: nat)
    requires v <= w && Greedy(same, patN, v) == patN
    ensures Greedy(same, patN, w) == patN
  {
    if v < w {
      GreedyStays(same, patN, v, w - 1);
    }
  }

  // ---------- The verdict ----------

  datatype Verdict = NoMatch | Perfect | Scored(score: int)

  function Max(x: int, y: int): int { if x > y then x else y }
  function Min(x: int, y: int): int { if x < y then x else y }

  /** match(): the score before it is scaled to [0, 1]. */
  function Decide(r: Rules, same: (int, int) -> bool): Verdict {
    if r.patN > r.wordN then NoMatch
    else if r.patN == 0 then Perfect
    else if Greedy(same, r.patN, r.wordN) != r.patN then NoMatch
    else
      var best := Max(Cell(r, r.patN, r.wordN, Miss).score, Cell(r, r.patN, r.wordN, Match).score);
      if IsAwful(best) then NoMatch else Scored(Min(PERFECT_BONUS * r.patN, Max(0, best)))
  }

  /** The action in which the traceback of dumpLast starts. */
  function FinalAction(r: Rules): Action {
    if Cell(r, r.patN, r.wordN, Match).score > Cell(r, r.patN, r.wordN, Miss).score then Match else Miss
  }

  /** No complete alignment scores more than `acts`. */
  ghost predicate IsBest(r: Rules, acts: seq<Action>) {
    && Complete(r, acts)
    && forall other :: Complete(r, other) ==> Score(r, other) <= Score(r, acts)
  }

  /** If the final cell is real, the traceback is a best complete alignment. */
  lemma TraceIsBest(r: Rules)
    requires Bounded(r) && 0 < r.patN <= MAX_PAT && r.wordN <= MAX_WORD
    requires !IsAwful(Cell(r, r.patN, r.wordN, FinalAction(r)).score)
    ensures IsBest(r, Trace(TableOf(r), r.patN, r.wordN, FinalAction(r)))
    ensures Score(r, Trace(TableOf(r), r.patN, r.wordN, FinalAction(r))) == Cell(r, r.patN, r.wordN, FinalAction(r)).score
  {
    var a := FinalAction(r);
    ScoresFit(r, r.patN, r.wordN, a);
    TraceAttainsCell(r, r.patN, r.wordN, a);
    var acts := Trace(TableOf(r), r.patN, r.wordN, a);
    forall other | Complete(r, other)
      ensures Score(r, other) <= Score(r, acts)
    {
      CellIsUpperBound(r, other);
    }
  }

  /** If some complete alignment exists, the final cell is real. */
  lemma CompleteMeansReal(r: Rules, acts: seq<Action>)
    requires Bounded(r) && r.patN <= MAX_PAT && r.wordN <= MAX_WORD && Complete(r, acts)
    ensures !IsAwful(Cell(r, r.patN, r.wordN, FinalAction(r)).score)
  {
    ScoreIsReal(r, acts);
    CellIsUpperBound(r, acts);
    ScoresFit(r, r.patN, r.wordN, FinalAction(r));
  }

  /** Main result: the verdict is "no match" exactly when no legal alignment of
      the whole pattern exists, and otherwise the score of a best alignment
      clamped to [0, 3 * PatN]. The cheap rejection rejects nothing else. */
  lemma DecideIsOptimal(r: Rules, same: (int, int) -> bool)
    requires Bounded(r) && r.patN <= MAX_PAT && r.wordN <= MAX_WORD
    requires forall p, w :: r.allow(p, w) ==> same(p, w)
    ensures Decide(r, same) == NoMatch <==> !exists acts :: Complete(r, acts)
    ensures r.patN == 0 <==> Decide(r, same) == Perfect
    ensures Decide(r, same).Scored? ==>
              exists acts :: IsBest(r, acts) && Decide(r, same).score == Min(PERFECT_BONUS * r.patN, Max(0, Score(r, acts)))
  {
    forall acts | Complete(r, acts)
      ensures Decide(r, same) != NoMatch
    {
      GreedyIsAhead(r, same, acts);
      CompleteMeansReal(r, acts);
    }
    if r.patN == 0 {
      SkipAllIsComplete(r, r.wordN);
      assert Complete(r, seq(r.wordN, _ => Miss));
    } else if Decide(r, same) != NoMatch {
      TraceIsBest(r);
    }
  }

  lemma {:induction false} SkipAllIsComplete(r: Rules, w: nat)
    requires w <= r.wordN
    ensures var acts := seq(w, _ => Miss); Legal(r, acts) && Matches(acts) == 0
  {
    if w > 0 {
      var acts := seq(w, _ => Miss);
      assert acts[..w - 1] == seq(w - 1, _ => Miss);
      SkipAllIsComplete(r, w - 1);
    }
  }

  // ---------- What the matched characters spell ----------

  /** The word characters at which `acts` matches. */
  function Picked<T>(word: seq<T>, acts: seq<Action>): seq<T>
    requires |acts| <= |word|
  {
    if acts == [] then []
    else
      var w := |acts| - 1;
      if acts[w] == Match then Picked(word, acts[..w]) + [word[w]] else Picked(word, acts[..w])
  }

  /** The matched word characters spell the pattern, as far as `allow` demands. */
  lemma {:induction false} PickedSpellsPattern<T>(r: Rules, pat: seq<T>, word: seq<T>, acts: seq<Action>)
    requires Legal(r, acts) && |pat| == r.patN && |word| == r.wordN
    requires forall p, w :: 0 <= p < r.patN && 0 <= w < r.wordN && r.allow(p, w) ==> pat[p] == word[w]
    ensures Picked(word, acts) == pat[..Matches(acts)]
  {
    if acts != [] {
      PickedSpellsPattern(r, pat, word, acts[..|acts| - 1]);
    }
  }
}
