/**
 Ranking completions: the best N candidates are kept in a heap whose front is the
 worst of them.
 */
module CodeComplete {
  import opened Bytes
  import opened Heap
  import opened Options
  import opened SortKey

  /** A completion found by Sema, with the ID of its symbol if there is one. */
  datatype SemaResult = SemaResult(name: seq<Byte>, symbolId: Option<nat>)

  /** A symbol of the index. */
  datatype Symbol = Symbol(id: nat, name: seq<Byte>)

  /** Where a candidate comes from: Sema, the index, or both. */
  datatype Source = Source(sema: Option<SemaResult>, symbol: Option<Symbol>)

  /** A name, its final score, and where it comes from. */
  datatype Candidate = Candidate(name: seq<Byte>, score: Float, source: Source)

  /** TopN::greater. */
  predicate Better(a: Candidate, b: Candidate) {
    Greater(a.score, a.name, b.score, b.name)
  }

  lemma BetterAsymmetric(a: Candidate, b: Candidate)
    requires Better(a, b)
    ensures !Better(b, a)
  {
    if Value(a.score) == Value(b.score) {
      BytesLessAsymmetric(a.name, b.name);
    }
  }

  lemma NotBetterTransitive(a: Candidate, b: Candidate, c: Candidate)
    requires !Better(a, b) && !Better(b, c)
    ensures !Better(a, c)
  {
    if Better(a, c) && Value(a.score) == Value(b.score) {
      BytesLessTotal(a.name, b.name);
      BytesLessTotal(b.name, c.name);
      if BytesLess(b.name, a.name) {
        BytesLessTransitive(b.name, a.name, c.name);
      }
    }
  }

  lemma BetterIsStrictWeak()
    ensures StrictWeak(Better)
  {
    forall a, b | Better(a, b)
      ensures !Better(b, a)
    {
      BetterAsymmetric(a, b);
    }
    forall a, b, c | !Better(a, b) && !Better(b, c)
      ensures !Better(a, c)
    {
      NotBetterTransitive(a, b, c);
    }
  }

  /** `kept` are `n` of the candidates, or all of them if there are no more, and none
      of the others is better than one of them. */
  ghost predicate AreBest(kept: multiset<Candidate>, dropped: multiset<Candidate>, pushed: multiset<Candidate>, n: nat) {
    && kept + dropped == pushed
    && |kept| == (if |pushed| <= n then |pushed| else n)
    && forall d, k :: d in dropped && k in kept ==> !Better(d, k)
  }

  /** Best first. */
  ghost predicate BestFirst(items: seq<Candidate>) {
    Sorted(items, Better)
  }

  class TopN {
    const n: nat
    var heap: seq<Candidate>
    /** Everything that was pushed, and what of it is not in the heap. */
    ghost var pushed: multiset<Candidate>
    ghost var dropped: multiset<Candidate>

    ghost predicate Valid()
      reads this
    {
      IsHeap(heap, Better) && AreBest(multiset(heap), dropped, pushed, n)
    }

    constructor (n: nat)
      ensures Valid() && this.n == n && pushed == multiset{}
    {
      this.n := n;
      heap := [];
      pushed := multiset{};
      dropped := multiset{};
    }

    /** True when a candidate had to be dropped. */
    method Push(v: Candidate) returns (overflow: bool)
      requires Valid()
      modifies this
      ensures Valid() && pushed == old(pushed) + multiset{v}
      ensures overflow == (|pushed| > n)
    {
      BetterIsStrictWeak();
      SizesAddUp(heap, dropped, pushed, n);
      pushed := pushed + multiset{v};
      if |heap| >= n {
        overflow := true;
        if n > 0 && Better(v, heap[0]) {
          var longer := ReplaceFront(heap, v);
          ReplacedFront(heap, longer, dropped, old(pushed), v, n);
          dropped := dropped + multiset{heap[0]};
          heap := longer;
        } else {
          DroppedAtOnce(heap, dropped, old(pushed), v, n);
          dropped := dropped + multiset{v};
        }
      } else {
        overflow := false;
        AddedToHeap(heap, dropped, old(pushed), v, n);
        heap := AddToHeap(heap, v);
      }
    }

    /** The kept candidates, from best to worst. */
    method Items() returns (items: seq<Candidate>)
      requires Valid()
      modifies this
      ensures BestFirst(items) && AreBest(multiset(items), dropped, pushed, n)
      ensures pushed == old(pushed) && dropped == old(dropped)
    {
      BetterIsStrictWeak();
      items := SortHeap(heap, Better);
      heap := [];
    }
  }

  /** The new candidate takes the place of the worst one. */
  method ReplaceFront(heap: seq<Candidate>, v: Candidate) returns (r: seq<Candidate>)
    requires StrictWeak(Better) && IsHeap(heap, Better) && heap != []
    ensures IsHeap(r, Better) && multiset(r) + multiset{heap[0]} == multiset(heap) + multiset{v}
  {
    r := PopHeap(heap, Better);
    ghost var others := r[..|r| - 1];
    assert r == others + [heap[0]];
    r := r[|r| - 1 := v];
    assert r == others + [v];
    r := PushHeap(r, Better);
  }

  method AddToHeap(heap: seq<Candidate>, v: Candidate) returns (r: seq<Candidate>)
    requires StrictWeak(Better) && IsHeap(heap, Better)
    ensures IsHeap(r, Better) && multiset(r) == multiset(heap) + multiset{v}
  {
    r := heap + [v];
    assert r[..|r| - 1] == heap;
    r := PushHeap(r, Better);
  }

  lemma SizesAddUp(heap: seq<Candidate>, dropped: multiset<Candidate>, pushed: multiset<Candidate>, n: nat)
    requires AreBest(multiset(heap), dropped, pushed, n)
    ensures |heap| + |dropped| == |pushed|
  {
    assert |multiset(heap) + dropped| == |heap| + |dropped|;
  }

  /** Below the bound nothing has been dropped. */
  lemma AddedToHeap(heap: seq<Candidate>, dropped: multiset<Candidate>, pushed: multiset<Candidate>, v: Candidate, n: nat)
    requires |heap| < n && AreBest(multiset(heap), dropped, pushed, n)
    ensures AreBest(multiset(heap) + multiset{v}, dropped, pushed + multiset{v}, n)
  {
    SizesAddUp(heap, dropped, pushed, n);
    assert dropped == multiset{};
  }

  lemma DroppedAtOnce(heap: seq<Candidate>, dropped: multiset<Candidate>, pushed: multiset<Candidate>, v: Candidate, n: nat)
    requires StrictWeak(Better) && IsHeap(heap, Better) && AreBest(multiset(heap), dropped, pushed, n)
    requires |heap| >= n && (n > 0 ==> !Better(v, heap[0]))
    ensures AreBest(multiset(heap), dropped + multiset{v}, pushed + multiset{v}, n)
  {
    forall k | k in multiset(heap)
      ensures !Better(v, k)
    {
      var i :| 0 <= i < |heap| && heap[i] == k;
      FrontIsLast(heap, Better, i);
    }
  }

  /** One element exchanged for another: sizes and elements. */
  lemma Exchanged<T>(after: multiset<T>, before: multiset<T>, others: multiset<T>, gone: T, arrival: T)
    requires after + multiset{gone} == before + multiset{arrival}
    ensures after + (others + multiset{gone}) == before + others + multiset{arrival}
    ensures |after| == |before|
    ensures forall k :: k in after ==> k == arrival || k in before
  {
    assert after + (others + multiset{gone}) == (after + multiset{gone}) + others;
    assert before + others + multiset{arrival} == (before + multiset{arrival}) + others;
    assert |after + multiset{gone}| == |after| + 1 && |before + multiset{arrival}| == |before| + 1;
    forall k | k in after && k != arrival
      ensures k in before
    {
      assert (after + multiset{gone})[k] >= after[k];
      assert (before + multiset{arrival})[k] == before[k];
    }
  }

  lemma ReplacedFront(heap: seq<Candidate>, r: seq<Candidate>, dropped: multiset<Candidate>, pushed: multiset<Candidate>, v: Candidate, n: nat)
    requires StrictWeak(Better) && IsHeap(heap, Better) && AreBest(multiset(heap), dropped, pushed, n)
    requires |heap| >= n > 0 && Better(v, heap[0])
    requires multiset(r) + multiset{heap[0]} == multiset(heap) + multiset{v}
    ensures AreBest(multiset(r), dropped + multiset{heap[0]}, pushed + multiset{v}, n)
  {
    var front := heap[0];
    Exchanged(multiset(r), multiset(heap), dropped, front, v);
    BetterAsymmetric(v, front);
    forall k | k in multiset(r)
      ensures !Better(front, k)
    {
      if k != v {
        var i :| 0 <= i < |heap| && heap[i] == k;
        FrontIsLast(heap, Better, i);
      }
    }
    forall d, k | d in dropped && k in multiset(r)
      ensures !Better(d, k)
    {
      assert front in multiset(heap) && !Better(d, front) && !Better(front, k);
    }
  }

  const UNBOUNDED := 0xFFFF_FFFF_FFFF_FFFF

  // ---------- Merging ----------

  /** The symbols of a slab have different IDs. */
  predicate DistinctIds(index: seq<Symbol>) {
    forall i, j :: 0 <= i < j < |index| ==> index[i].id != index[j].id
  }

  function Find(index: seq<Symbol>, id: nat): (x: Option<Symbol>)
    ensures x.Some? ==> x.value in index && x.value.id == id
    ensures x.None? ==> forall y :: y in index ==> y.id != id
  {
    if index == [] then None
    else if index[0].id == id then Some(index[0])
    else Find(index[1..], id)
  }

  function CorrespondingIndexResult(index: seq<Symbol>, r: SemaResult): Option<Symbol> {
    if r.symbolId.Some? then Find(index, r.symbolId.value) else None
  }

  /** Some result of Sema is this symbol. */
  predicate IsUsed(sema: seq<SemaResult>, x: Symbol) {
    exists i :: 0 <= i < |sema| && sema[i].symbolId == Some(x.id)
  }

  /** What is to be offered: each result of Sema with its symbol, if the index has it,
      and each symbol of the index that no result of Sema is. */
  function SemaSources(sema: seq<SemaResult>, index: seq<Symbol>): seq<Source> {
    seq(|sema|, i requires 0 <= i < |sema| => Source(Some(sema[i]), CorrespondingIndexResult(index, sema[i])))
  }

  function IndexSources(sema: seq<SemaResult>, index: seq<Symbol>): seq<Source> {
    if index == [] then []
    else
      var x := index[|index| - 1];
      IndexSources(sema, index[..|index| - 1]) + if IsUsed(sema, x) then [] else [Source(None, Some(x))]
  }

  function Sources(sema: seq<SemaResult>, index: seq<Symbol>): seq<Source> {
    SemaSources(sema, index) + IndexSources(sema, index)
  }

  lemma {:induction false} AloneExactly(sema: seq<SemaResult>, index: seq<Symbol>, x: Symbol)
    ensures Source(None, Some(x)) in IndexSources(sema, index) <==> x in index && !IsUsed(sema, x)
  {
    if index != [] {
      AloneExactly(sema, index[..|index| - 1], x);
    }
  }

  /** No symbol of the index is lost: it is merged into a result of Sema exactly when
      one has its ID, and otherwise offered alone. */
  lemma EverySymbolOffered(sema: seq<SemaResult>, index: seq<Symbol>, x: Symbol)
    requires DistinctIds(index) && x in index
    ensures IsUsed(sema, x) <==> exists r :: Source(Some(r), Some(x)) in Sources(sema, index)
    ensures !IsUsed(sema, x) <==> Source(None, Some(x)) in Sources(sema, index)
  {
    AloneExactly(sema, index, x);
    if i :| 0 <= i < |sema| && sema[i].symbolId == Some(x.id) {
      assert Find(index, x.id) == Some(x);
      assert SemaSources(sema, index)[i] == Source(Some(sema[i]), Some(x));
    }
    if r :| Source(Some(r), Some(x)) in Sources(sema, index) {
      NoSemaAlone(sema, index, r, Some(x));
      var i :| 0 <= i < |sema| && SemaSources(sema, index)[i] == Source(Some(r), Some(x));
      assert sema[i].symbolId == Some(x.id);
    }
  }

  lemma {:induction false} NoSemaAlone(sema: seq<SemaResult>, index: seq<Symbol>, r: SemaResult, x: Option<Symbol>)
    ensures Source(Some(r), x) !in IndexSources(sema, index)
  {
    if index != [] {
      NoSemaAlone(sema, index[..|index| - 1], r, x);
    }
  }

  /** The score of a name that stands for a source; None when the filter does not match
      the name. */
  type Scorer = (seq<Byte>, Source) -> Option<Float>

  function CandidateOf(score: Scorer, from: Source): Option<Candidate> {
    var s := score(NameOf(from), from);
    if s.None? then None else Some(Candidate(NameOf(from), s.value, from))
  }

  function NameOf(from: Source): seq<Byte> {
    if from.symbol.Some? then from.symbol.value.name
    else if from.sema.Some? then from.sema.value.name
    else []
  }

  function Scored(score: Scorer, sources: seq<Source>): multiset<Candidate> {
    if sources == [] then multiset{}
    else
      var c := CandidateOf(score, sources[|sources| - 1]);
      Scored(score, sources[..|sources| - 1]) + if c.Some? then multiset{c.value} else multiset{}
  }

  lemma ScoredOneMore(score: Scorer, sources: seq<Source>, from: Source)
    ensures Scored(score, sources + [from]) ==
            Scored(score, sources) + match CandidateOf(score, from) case Some(c) => multiset{c} case None => multiset{}
  {
    assert (sources + [from])[..|sources|] == sources;
  }

  // ---------- What is offered ----------

  /** `x` is what the index has for a result of Sema: the symbol with its ID, if any. */
  predicate Corresponds(index: seq<Symbol>, r: SemaResult, x: Option<Symbol>) {
    match x
    case Some(y) => y in index && r.symbolId == Some(y.id)
    case None => forall y :: y in index ==> r.symbolId != Some(y.id)
  }

  lemma CorrespondsExactly(index: seq<Symbol>, r: SemaResult, x: Option<Symbol>)
    requires DistinctIds(index)
    ensures Corresponds(index, r, x) <==> x == CorrespondingIndexResult(index, r)
  {
  }

  /** How often a source is to be offered: once for each time Sema gave that result, with
      the symbol the index has for it; and once for a symbol that is no result of Sema. */
  function Offers(sema: seq<SemaResult>, index: seq<Symbol>, from: Source): nat {
    match from
    case Source(Some(r), x) => if Corresponds(index, r, x) then multiset(sema)[r] else 0
    case Source(None, Some(x)) => if x in index && !IsUsed(sema, x) then 1 else 0
    case Source(None, None) => 0
  }

  /** The symbol's name if there is one, and otherwise Sema's. */
  predicate IsNameOf(name: seq<Byte>, from: Source) {
    match from
    case Source(_, Some(x)) => name == x.name
    case Source(Some(r), None) => name == r.name
    case Source(None, None) => name == []
  }

  /** `c` is what the source gives when it is scored. */
  predicate IsScored(score: Scorer, c: Candidate) {
    IsNameOf(c.name, c.source) && score(c.name, c.source) == Some(c.score)
  }

  /** How often a candidate is offered: as often as its source, if its name passes the
      filter with its score. */
  function Candidates(score: Scorer, sema: seq<SemaResult>, index: seq<Symbol>, c: Candidate): nat {
    if IsScored(score, c) then Offers(sema, index, c.source) else 0
  }

  lemma CountLast<T>(s: seq<T>, x: T)
    requires s != []
    ensures multiset(s)[x] == multiset(s[..|s| - 1])[x] + if s[|s| - 1] == x then 1 else 0
  {
    assert s == s[..|s| - 1] + [s[|s| - 1]];
  }

  lemma CandidateExactly(score: Scorer, from: Source, c: Candidate)
    ensures CandidateOf(score, from) == Some(c) <==> c.source == from && IsScored(score, c)
  {
  }

  lemma {:induction false} ScoredExactly(score: Scorer, sources: seq<Source>, c: Candidate)
    ensures Scored(score, sources)[c] ==
            if IsScored(score, c) then multiset(sources)[c.source] else 0
  {
    if sources != [] {
      ScoredExactly(score, sources[..|sources| - 1], c);
      CountLast(sources, c.source);
      CandidateExactly(score, sources[|sources| - 1], c);
    }
  }

  lemma {:induction false} SemaOffers(sema: seq<SemaResult>, index: seq<Symbol>, from: Source)
    requires DistinctIds(index)
    ensures multiset(SemaSources(sema, index))[from] == if from.sema.Some? then Offers(sema, index, from) else 0
  {
    if sema != [] {
      var n := |sema| - 1;
      var r := sema[n];
      SemaOffers(sema[..n], index, from);
      if from.sema.Some? {
        CorrespondsExactly(index, from.sema.value, from.symbol);
      }
      assert sema == sema[..n] + [r];
      assert SemaSources(sema, index) == SemaSources(sema[..n], index) + [Source(Some(r), CorrespondingIndexResult(index, r))];
    }
  }

  lemma InLast(index: seq<Symbol>, x: Option<Symbol>)
    requires index != [] && DistinctIds(index)
    ensures var n := |index| - 1;
            x.Some? ==> (x.value in index <==> x.value in index[..n] || x.value == index[n])
    ensures index[|index| - 1] !in index[..|index| - 1]
  {
  }

  lemma {:induction false} IndexOffers(sema: seq<SemaResult>, index: seq<Symbol>, from: Source)
    requires DistinctIds(index)
    ensures multiset(IndexSources(sema, index))[from] == if from.sema.Some? then 0 else Offers(sema, index, from)
  {
    if index != [] {
      var n := |index| - 1;
      IndexOffers(sema, index[..n], from);
      InLast(index, from.symbol);
      if !IsUsed(sema, index[n]) {
        CountLast(IndexSources(sema, index), from);
        assert IndexSources(sema, index)[..|IndexSources(sema, index)| - 1] == IndexSources(sema, index[..n]);
      }
    }
  }

  /** Main result on merging: what is scored is what is to be offered, as often. */
  lemma OfferedExactly(score: Scorer, sema: seq<SemaResult>, index: seq<Symbol>, c: Candidate)
    requires DistinctIds(index)
    ensures Scored(score, Sources(sema, index))[c] == Candidates(score, sema, index, c)
  {
    ScoredExactly(score, Sources(sema, index), c);
    SemaOffers(sema, index, c.source);
    IndexOffers(sema, index, c.source);
  }

  /** Every result of Sema whose name passes the filter is offered. */
  lemma EveryResultOffered(score: Scorer, sema: seq<SemaResult>, index: seq<Symbol>, r: SemaResult, s: Float)
    requires DistinctIds(index) && r in sema && (forall y :: y in index ==> r.symbolId != Some(y.id))
    requires score(r.name, Source(Some(r), None)) == Some(s)
    ensures Candidate(r.name, s, Source(Some(r), None)) in Scored(score, Sources(sema, index))
  {
    OfferedExactly(score, sema, index, Candidate(r.name, s, Source(Some(r), None)));
  }

  // ---------- The loops ----------

  /** Scores a candidate and pushes it if it fits; true when one had to be dropped. */
  method AddCandidate(score: Scorer, top: TopN, from: Source, ghost before: seq<Source>) returns (overflow: bool)
    requires top.Valid() && top.pushed == Scored(score, before)
    modifies top
    ensures top.Valid() && top.pushed == Scored(score, before + [from])
    ensures overflow ==> |top.pushed| > top.n
    ensures !overflow ==> (|top.pushed| > top.n <==> |old(top.pushed)| > top.n)
  {
    ScoredOneMore(score, before, from);
    var c := CandidateOf(score, from);
    if c.None? {
      return false;
    }
    overflow := top.Push(c.value);
  }

  /** The symbols marked are those that some result of Sema is. */
  ghost predicate Marked(index: seq<Symbol>, sema: seq<SemaResult>, used: set<Symbol>) {
    forall x :: x in index ==> (x in used <==> IsUsed(sema, x))
  }

  lemma UsedOneMore(sema: seq<SemaResult>, r: SemaResult, x: Symbol)
    ensures IsUsed(sema + [r], x) <==> IsUsed(sema, x) || r.symbolId == Some(x.id)
  {
    assert (sema + [r])[|sema|] == r;
    assert forall i :: 0 <= i < |sema| ==> (sema + [r])[i] == sema[i];
  }

  lemma MarkOneMore(index: seq<Symbol>, sema: seq<SemaResult>, r: SemaResult, used: set<Symbol>)
    requires DistinctIds(index) && Marked(index, sema, used)
    ensures var x := CorrespondingIndexResult(index, r);
            Marked(index, sema + [r], if x.Some? then used + {x.value} else used)
  {
    forall x | x in index
      ensures IsUsed(sema + [r], x) <==> x in used || CorrespondingIndexResult(index, r) == Some(x)
    {
      UsedOneMore(sema, r, x);
    }
  }

  lemma OneMore<T>(s: seq<T>, i: nat)
    requires i < |s|
    ensures s[..i + 1] == s[..i] + [s[i]]
  {
  }

  /** All results of Sema, merged with symbols of the index where possible. */
  method AddSemaResults(score: Scorer, top: TopN, sema: seq<SemaResult>, index: seq<Symbol>, known: bool)
    returns (used: set<Symbol>, incomplete: bool)
    requires DistinctIds(index) && top.Valid() && top.pushed == multiset{}
    modifies top
    ensures top.Valid() && top.pushed == Scored(score, SemaSources(sema, index))
    ensures Marked(index, sema, used) && (incomplete <==> known || |top.pushed| > top.n)
  {
    used, incomplete := {}, known;
    ghost var merged := SemaSources(sema, index);
    for i := 0 to |sema|
      invariant top.Valid() && top.pushed == Scored(score, merged[..i])
      invariant Marked(index, sema[..i], used) && (incomplete <==> known || |top.pushed| > top.n)
    {
      var x := CorrespondingIndexResult(index, sema[i]);
      MarkOneMore(index, sema[..i], sema[i], used);
      OneMore(sema, i);
      OneMore(merged, i);
      if x.Some? {
        used := used + {x.value};
      }
      var overflow := AddCandidate(score, top, Source(Some(sema[i]), x), merged[..i]);
      incomplete := incomplete || overflow;
    }
    assert merged[..|sema|] == merged && sema[..|sema|] == sema;
  }

  lemma IndexOneMore(sema: seq<SemaResult>, index: seq<Symbol>, i: nat, merged: seq<Source>)
    requires i < |index|
    ensures var here, next := merged + IndexSources(sema, index[..i]), merged + IndexSources(sema, index[..i + 1]);
            next == if IsUsed(sema, index[i]) then here else here + [Source(None, Some(index[i]))]
  {
    assert index[..i + 1][..i] == index[..i];
    var here := IndexSources(sema, index[..i]);
    if IsUsed(sema, index[i]) {
      assert here + [] == here;
    }
  }

  /** Then the symbols that are in the index only. */
  method AddIndexResults(score: Scorer, top: TopN, ghost sema: seq<SemaResult>, index: seq<Symbol>, used: set<Symbol>, before: bool,
                         ghost known: bool)
    returns (incomplete: bool)
    requires Marked(index, sema, used) && (before <==> known || |top.pushed| > top.n)
    requires top.Valid() && top.pushed == Scored(score, SemaSources(sema, index))
    modifies top
    ensures top.Valid() && top.pushed == Scored(score, Sources(sema, index))
    ensures incomplete <==> known || |top.pushed| > top.n
  {
    incomplete := before;
    ghost var merged := SemaSources(sema, index);
    assert merged + IndexSources(sema, index[..0]) == merged;
    for i := 0 to |index|
      invariant top.Valid() && top.pushed == Scored(score, merged + IndexSources(sema, index[..i]))
      invariant incomplete <==> known || |top.pushed| > top.n
    {
      ghost var here := merged + IndexSources(sema, index[..i]);
      IndexOneMore(sema, index, i, merged);
      if index[i] in used {
        continue;
      }
      var overflow := AddCandidate(score, top, Source(None, Some(index[i])), here);
      incomplete := incomplete || overflow;
    }
    assert index[..|index|] == index;
  }

  /** Main result: of all that Sema and the index offer and the filter lets through, the
      items are the best, in order, and the list is incomplete exactly when there are
      more than the limit or the index had more (`known`). */
  method MergeResults(score: Scorer, sema: seq<SemaResult>, index: seq<Symbol>, limit: nat, known: bool)
    returns (items: seq<Candidate>, incomplete: bool, ghost left: multiset<Candidate>)
    requires DistinctIds(index)
    ensures BestFirst(items)
    ensures forall c :: (multiset(items) + left)[c] == Candidates(score, sema, index, c)
    ensures AreBest(multiset(items), left, Scored(score, Sources(sema, index)), if limit == 0 then UNBOUNDED else limit)
    ensures left != multiset{} ==> |items| == if limit == 0 then 0xFFFF_FFFF_FFFF_FFFF else limit
    ensures incomplete <==> known || left != multiset{}
  {
    var top := new TopN(if limit == 0 then UNBOUNDED else limit);
    var used, overflow := AddSemaResults(score, top, sema, index, known);
    incomplete := AddIndexResults(score, top, sema, index, used, overflow, known);
    items := top.Items();
    left := top.dropped;
    SizesAddUp(items, left, top.pushed, top.n);
    forall c
      ensures (multiset(items) + left)[c] == Candidates(score, sema, index, c)
    {
      OfferedExactly(score, sema, index, c);
    }
  }

  /** A client that sorts the items by sortText keeps them in their order. */
  lemma SortTextsFollowItems(items: seq<Candidate>, i: nat, j: nat)
    requires BestFirst(items) && i < j < |items|
    ensures !BytesLess(SortText(items[j].score, items[j].name), SortText(items[i].score, items[i].name))
  {
    SortTextOrder(items[j].score, items[j].name, items[i].score, items[i].name);
  }
}
