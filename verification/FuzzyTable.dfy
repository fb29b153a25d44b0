/** What each cell of the table means. */
module FuzzyTable {
  import opened FuzzyScoring
  import opened FuzzyOptimal

  /** A legal sequence that matches `p` pattern characters in `w` word characters, the
      last action being `a`. */
  predicate EndsIn(r: Rules, acts: seq<Action>, p: nat, w: nat, a: Action) {
    Legal(r, acts) && |acts| == w && Matches(acts) == p && Last(acts) == a
  }

  /** Unreachable states never look reachable: a cell is not awful exactly when some
      legal sequence ends in its state. */
  lemma RealExactly(r: Rules, p: nat, w: nat, a: Action)
    requires Bounded(r) && p <= r.patN <= MAX_PAT && w <= r.wordN <= MAX_WORD
    ensures !IsAwful(Cell(r, p, w, a).score) <==> exists acts :: EndsIn(r, acts, p, w, a)
  {
    ScoresFit(r, p, w, a);
    if !IsAwful(Cell(r, p, w, a).score) {
      TraceAttainsCell(r, p, w, a);
      assert EndsIn(r, Trace(TableOf(r), p, w, a), p, w, a);
    }
    if acts :| EndsIn(r, acts, p, w, a) {
      ScoreIsReal(r, acts);
      CellIsUpperBound(r, acts);
    }
  }

  /** Main result on the table: a cell that is not awful is the maximum score of the
      legal sequences that end in its state. */
  lemma CellIsMaximum(r: Rules, p: nat, w: nat, a: Action)
    requires Bounded(r) && p <= r.patN <= MAX_PAT && w <= r.wordN <= MAX_WORD
    ensures forall acts :: EndsIn(r, acts, p, w, a) ==> Score(r, acts) <= Cell(r, p, w, a).score
    ensures !IsAwful(Cell(r, p, w, a).score) ==>
              exists acts :: EndsIn(r, acts, p, w, a) && Score(r, acts) == Cell(r, p, w, a).score
  {
    forall acts | EndsIn(r, acts, p, w, a)
      ensures Score(r, acts) <= Cell(r, p, w, a).score
    {
      CellIsUpperBound(r, acts);
    }
    if !IsAwful(Cell(r, p, w, a).score) {
      ScoresFit(r, p, w, a);
      TraceAttainsCell(r, p, w, a);
      assert EndsIn(r, Trace(TableOf(r), p, w, a), p, w, a);
    }
  }
}
