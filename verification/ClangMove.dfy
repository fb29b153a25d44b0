/**
 Where clang-move puts the helper declarations of old.cc: into new.cc, when what is
 moved uses them, and out of old.cc, when nothing that stays uses them.
 */
module ClangMove {
  import opened HelperDeclRefGraph
  import opened Sequences

  /** What the matchers found. `outmost` is the outermost enclosing class or function
      of a declaration, `inHeader` tells whether it is in old.h. */
  datatype Findings = Findings(
    edges: Edges,
    outmost: Decl -> Decl,
    inHeader: Decl -> bool,
    moved: seq<Decl>,
    removed: seq<Decl>,
    helpers: seq<Decl>,
    unremoved: set<Decl>,
    hasOldHeader: bool)

  function SetOf(decls: seq<Decl>): set<Decl> {
    set d | d in decls
  }

  /** Some of the declarations refers to `d`, directly or through helpers. */
  ghost predicate Uses(edges: Edges, outmost: Decl -> Decl, roots: set<Decl>, d: Decl) {
    exists root :: root in roots && Reaches(edges, outmost(root), d)
  }

  /** Helpers are recorded as moved declarations of old.cc too. */
  predicate HelpersAreMoved(f: Findings) {
    forall d :: d in f.helpers ==> d in f.moved && !f.inHeader(d)
  }

  /** References lead to nodes of the graph. */
  predicate ReferencesAreNodes(edges: Edges) {
    forall d, e :: d in edges && e in edges[d] ==> e in edges
  }

  predicate WellFormed(f: Findings) {
    HelpersAreMoved(f) && ReferencesAreNodes(f.edges)
  }

  ghost predicate InNewCC(f: Findings, d: Decl) {
    && d in f.moved && !f.inHeader(d)
    && (d in f.helpers ==> Uses(f.edges, f.outmost, SetOf(f.removed), f.outmost(d)))
  }

  /** A helper that is not one of the removed declarations, nor taken out because it
      is unused. */
  ghost predicate StaysInOldCC(f: Findings, d: Decl) {
    d !in f.removed && (f.hasOldHeader ==> Uses(f.edges, f.outmost, f.unremoved, f.outmost(d)))
  }

  /** The first refers to the second. */
  predicate RefersTo(f: Findings, d: Decl, e: Decl) {
    f.outmost(d) in f.edges && f.outmost(e) in f.edges[f.outmost(d)]
  }

  // ---------- Nothing that is used is missing ----------

  lemma UsesAfter(f: Findings, roots: set<Decl>, d: Decl, e: Decl)
    requires ReferencesAreNodes(f.edges) && RefersTo(f, d, e) && Uses(f.edges, f.outmost, roots, f.outmost(d))
    ensures Uses(f.edges, f.outmost, roots, f.outmost(e))
  {
    var root :| root in roots && Reaches(f.edges, f.outmost(root), f.outmost(d));
    ReachesAfter(f.edges, f.outmost(root), f.outmost(d), f.outmost(e));
  }

  lemma UsesItself(f: Findings, roots: set<Decl>, d: Decl)
    requires d in roots && f.outmost(d) in f.edges
    ensures Uses(f.edges, f.outmost, roots, f.outmost(d))
  {
    ReachesItself(f.edges, f.outmost(d));
  }

  /** new.cc is closed: a helper that a moved declaration or a helper there refers to
      is there. */
  lemma NewCCIsClosed(f: Findings, d: Decl, helper: Decl)
    requires WellFormed(f) && helper in f.helpers && RefersTo(f, d, helper)
    requires d in f.removed || (d in f.helpers && InNewCC(f, d))
    ensures InNewCC(f, helper)
  {
    var roots := SetOf(f.removed);
    if d in f.removed {
      UsesItself(f, roots, d);
    }
    UsesAfter(f, roots, d, helper);
  }

  /** old.cc is closed: what a remaining declaration of old.h or a remaining helper
      refers to stays, unless it is to be removed itself. */
  lemma OldCCIsClosed(f: Findings, d: Decl, helper: Decl)
    requires ReferencesAreNodes(f.edges) && f.hasOldHeader && helper in f.helpers && RefersTo(f, d, helper)
    requires d in f.unremoved || (d in f.helpers && StaysInOldCC(f, d))
    ensures StaysInOldCC(f, helper) <==> helper !in f.removed
  {
    if d in f.unremoved {
      UsesItself(f, f.unremoved, d);
    }
    UsesAfter(f, f.unremoved, d, helper);
  }

  /** A declaration of old.cc that is neither in old.h nor a helper may stay as well, but
      its uses are not looked at: a helper that it refers to stays exactly when what
      remains of old.h uses that helper, for instance by way of this declaration. */
  lemma OtherKeepsHelperExactly(f: Findings, d: Decl, helper: Decl)
    requires ReferencesAreNodes(f.edges) && f.hasOldHeader && RefersTo(f, d, helper) && helper !in f.removed
    ensures StaysInOldCC(f, helper) <==> Uses(f.edges, f.outmost, f.unremoved, f.outmost(helper))
    ensures Uses(f.edges, f.outmost, f.unremoved, f.outmost(d)) ==> StaysInOldCC(f, helper)
  {
    if Uses(f.edges, f.outmost, f.unremoved, f.outmost(d)) {
      UsesAfter(f, f.unremoved, d, helper);
    }
  }

  /** A function of old.cc that is not declared in old.h loses a helper that only it uses. */
  lemma HelperOfOtherLost()
    ensures var other, helper, moved, kept := Decl(1), Decl(2), Decl(3), Decl(4);
            var f := Findings(map[other := [helper], helper := []], d => d, d => d == moved || d == kept,
                              [moved, helper], [moved], [helper], {kept}, true);
            WellFormed(f) && RefersTo(f, other, helper) && !StaysInOldCC(f, helper)
  {
    var other, helper, moved, kept := Decl(1), Decl(2), Decl(3), Decl(4);
    var f := Findings(map[other := [helper], helper := []], d => d, d => d == moved || d == kept,
                      [moved, helper], [moved], [helper], {kept}, true);
    assert RefersTo(f, other, helper);
    NothingReached(f.edges, kept, helper);
  }

  lemma NothingReached(edges: Edges, from: Decl, to: Decl)
    requires from !in edges
    ensures !Reaches(edges, from, to)
  {
  }

  /** With an old header, a helper that was not asked for is dropped altogether exactly
      when neither side uses it. */
  lemma DroppedExactly(f: Findings, helper: Decl)
    requires WellFormed(f) && helper in f.helpers && helper !in f.removed
    ensures !InNewCC(f, helper) && !StaysInOldCC(f, helper) <==>
            f.hasOldHeader && !Uses(f.edges, f.outmost, SetOf(f.removed) + f.unremoved, f.outmost(helper))
  {
    var removed := SetOf(f.removed);
    if Uses(f.edges, f.outmost, removed + f.unremoved, f.outmost(helper)) {
      var root :| root in removed + f.unremoved && Reaches(f.edges, f.outmost(root), f.outmost(helper));
    }
  }

  /** A helper that is asked for by name is removed from old.cc in any case. It arrives
      in new.cc exactly when it takes part in some reference; otherwise it is lost. */
  lemma NamedHelperArrivesExactly(f: Findings, helper: Decl)
    requires WellFormed(f) && helper in f.helpers && helper in f.removed
    ensures !StaysInOldCC(f, helper)
    ensures InNewCC(f, helper) <==> f.outmost(helper) in f.edges
  {
    var roots := SetOf(f.removed);
    if f.outmost(helper) in f.edges {
      UsesItself(f, roots, helper);
    }
    if root :| root in roots && Reaches(f.edges, f.outmost(root), f.outmost(helper)) {
      var path :| IsPath(f.edges, path) && path[|path| - 1] == f.outmost(helper);
      assert path[|path| - 1] in f.edges;
    }
  }

  /** A static function of old.cc that nothing refers to, moved by name: it ends up in
      neither file. */
  lemma NamedHelperLost()
    ensures var f := Findings(map[], d => d, _ => false, [Decl(1)], [Decl(1)], [Decl(1)], {Decl(2)}, true);
            WellFormed(f) && !InNewCC(f, Decl(1)) && !StaysInOldCC(f, Decl(1))
  {
    var f := Findings(map[], d => d, _ => false, [Decl(1)], [Decl(1)], [Decl(1)], {Decl(2)}, true);
    assert Decl(1) in f.helpers && Decl(1) in f.removed;
    NamedHelperArrivesExactly(f, Decl(1));
  }

  // ---------- The tool ----------

  function Filter(s: seq<Decl>, keep: set<Decl>): seq<Decl> {
    if s == [] then [] else (if s[0] in keep then [s[0]] else []) + Filter(s[1..], keep)
  }

  lemma {:induction false} FilterLonger(s: seq<Decl>, d: Decl, keep: set<Decl>)
    ensures Filter(s + [d], keep) == Filter(s, keep) + if d in keep then [d] else []
  {
    if s == [] {
      assert s + [d] == [d];
    } else {
      assert (s + [d])[1..] == s[1..] + [d];
      FilterLonger(s[1..], d, keep);
      Assoc(if s[0] in keep then [s[0]] else [], Filter(s[1..], keep), if d in keep then [d] else []);
    }
  }

  /** What is kept stays in order, as often as it was there. */
  lemma {:induction false} FilterInParts(a: seq<Decl>, b: seq<Decl>, d: Decl, keep: set<Decl>)
    ensures Filter(a + b, keep) == Filter(a, keep) + Filter(b, keep)
    ensures Filter([d], keep) == if d in keep then [d] else []
  {
    assert [d][1..] == [];
    if b == [] {
      assert a + b == a && Filter(a, keep) + [] == Filter(a, keep);
    } else {
      FilterInParts(a, b[..|b| - 1], d, keep);
      FilterLonger(a + b[..|b| - 1], b[|b| - 1], keep);
      FilterLonger(b[..|b| - 1], b[|b| - 1], keep);
      assert a + b == a + b[..|b| - 1] + [b[|b| - 1]] && b == b[..|b| - 1] + [b[|b| - 1]];
    }
  }

  /** The helpers that are not in `used`. */
  function Unused(helpers: seq<Decl>, outmost: Decl -> Decl, used: set<Decl>): seq<Decl> {
    Filter(helpers, set d | d in helpers && outmost(d) !in used)
  }

  class ClangMoveTool {
    const graph: HelperDeclRefGraph
    const outmost: Decl -> Decl
    const inHeader: Decl -> bool
    const hasOldHeader: bool
    var movedDecls: seq<Decl>
    var removedDecls: seq<Decl>
    var helperDeclarations: seq<Decl>
    var unremovedDeclsInOldHeader: set<Decl>
    var newHeaderDecls: seq<Decl>
    var actualNewCCDecls: seq<Decl>

    constructor (graph: HelperDeclRefGraph, f: Findings)
      ensures this.graph == graph && outmost == f.outmost && inHeader == f.inHeader && hasOldHeader == f.hasOldHeader
      ensures movedDecls == f.moved && removedDecls == f.removed && helperDeclarations == f.helpers
      ensures unremovedDeclsInOldHeader == f.unremoved
    {
      this.graph := graph;
      outmost, inHeader, hasOldHeader := f.outmost, f.inHeader, f.hasOldHeader;
      movedDecls, removedDecls, helperDeclarations := f.moved, f.removed, f.helpers;
      unremovedDeclsInOldHeader := f.unremoved;
      newHeaderDecls, actualNewCCDecls := [], [];
    }

    ghost function State(): Findings
      reads this, graph, graph.declMap.Values
    {
      Findings(graph.Graph(), outmost, inHeader, movedDecls, removedDecls, helperDeclarations, unremovedDeclsInOldHeader, hasOldHeader)
    }

    /** What the declarations use, themselves included when they are in the graph. */
    method GetUsedDecls(decls: seq<Decl>) returns (used: set<Decl>)
      requires graph.Valid()
      ensures forall d :: d in used <==> Uses(graph.Graph(), outmost, SetOf(decls), d)
    {
      var nodes: set<CallGraphNode> := {};
      ghost var edges := graph.Graph();
      var i := 0;
      while i < |decls|
        invariant i <= |decls| && forall n :: n in nodes ==> graph.IsNode(n)
        invariant forall d :: d in DeclSet(nodes) <==> Uses(edges, outmost, SetOf(decls[..i]), d)
      {
        assert SetOf(decls[..i + 1]) == SetOf(decls[..i]) + {decls[i]};
        var reachable := graph.GetReachableNodes(outmost(decls[i]));
        UsedMore(edges, outmost, SetOf(decls[..i]), decls[i], nodes, reachable);
        nodes := nodes + reachable;
        i := i + 1;
      }
      assert decls[..i] == decls;
      used := DeclSet(nodes);
    }

    method SplitMovedDecls() returns (headerDecls: seq<Decl>, ccDecls: seq<Decl>)
      ensures headerDecls == Filter(movedDecls, set d | d in movedDecls && inHeader(d))
      ensures ccDecls == Filter(movedDecls, set d | d in movedDecls && !inHeader(d))
    {
      headerDecls, ccDecls := [], [];
      ghost var header := set d | d in movedDecls && inHeader(d);
      ghost var cc := set d | d in movedDecls && !inHeader(d);
      var i := 0;
      while i < |movedDecls|
        invariant i <= |movedDecls|
        invariant headerDecls == Filter(movedDecls[..i], header) && ccDecls == Filter(movedDecls[..i], cc)
      {
        var d := movedDecls[i];
        assert movedDecls[..i + 1] == movedDecls[..i] + [d];
        FilterLonger(movedDecls[..i], d, header);
        FilterLonger(movedDecls[..i], d, cc);
        if inHeader(d) {
          headerDecls := headerDecls + [d];
        } else {
          ccDecls := ccDecls + [d];
        }
        i := i + 1;
      }
      assert movedDecls[..i] == movedDecls;
    }

    /** Leaves out the helpers that are not used. */
    method DropUnusedHelpers(decls: seq<Decl>, used: set<Decl>) returns (kept: seq<Decl>)
      ensures kept == Filter(decls, set d | d in decls && (d in helperDeclarations ==> outmost(d) in used))
    {
      kept := [];
      ghost var keep := set d | d in decls && (d in helperDeclarations ==> outmost(d) in used);
      var i := 0;
      while i < |decls|
        invariant i <= |decls| && kept == Filter(decls[..i], keep)
      {
        var d := decls[i];
        assert decls[..i + 1] == decls[..i] + [d];
        FilterLonger(decls[..i], d, keep);
        i := i + 1;
        if d in helperDeclarations && outmost(d) !in used {
          continue;
        }
        kept := kept + [d];
      }
      assert decls[..i] == decls;
    }

    method MoveDeclsToNewFiles()
      requires graph.Valid()
      modifies this`newHeaderDecls, this`actualNewCCDecls
      ensures newHeaderDecls == Filter(movedDecls, set d | d in movedDecls && inHeader(d))
      ensures actualNewCCDecls == NewCCOf(old(State()))
    {
      var headerDecls, newCCDecls := SplitMovedDecls();
      var usedDecls := GetUsedDecls(removedDecls);
      KeptAreInNewCC(State(), newCCDecls, usedDecls);
      newHeaderDecls := headerDecls;
      actualNewCCDecls := DropUnusedHelpers(newCCDecls, usedDecls);
    }

    /** The set as a list, in some order. */
    method ToList(decls: set<Decl>) returns (list: seq<Decl>)
      ensures SetOf(list) == decls
    {
      list := [];
      var rest := decls;
      while rest != {}
        invariant rest <= decls && SetOf(list) == decls - rest
        decreases |rest|
      {
        var d :| d in rest;
        assert SetOf(list + [d]) == SetOf(list) + {d};
        rest := rest - {d};
        list := list + [d];
      }
    }

    method RemoveUnusedHelpers(used: set<Decl>)
      modifies this`removedDecls
      ensures removedDecls == old(removedDecls) + Unused(helperDeclarations, outmost, used)
    {
      ghost var unused := set d | d in helperDeclarations && outmost(d) !in used;
      var i := 0;
      while i < |helperDeclarations|
        invariant i <= |helperDeclarations|
        invariant removedDecls == old(removedDecls) + Filter(helperDeclarations[..i], unused)
      {
        var d := helperDeclarations[i];
        assert helperDeclarations[..i + 1] == helperDeclarations[..i] + [d];
        FilterLonger(helperDeclarations[..i], d, unused);
        if outmost(d) !in used {
          removedDecls := removedDecls + [d];
        }
        i := i + 1;
      }
      assert helperDeclarations[..i] == helperDeclarations;
    }

    method RemoveDeclsInOldFiles()
      requires graph.Valid()
      modifies this`removedDecls
      ensures removedDecls == RemovedOf(old(State()))
    {
      if removedDecls == [] || !hasOldHeader {
        return;
      }
      var unremovedDecls := ToList(unremovedDeclsInOldHeader);
      var usedDecls := GetUsedDecls(unremovedDecls);
      UnusedAreRemoved(State(), usedDecls);
      RemoveUnusedHelpers(usedDecls);
    }

    lemma GraphIsClosed()
      requires graph.Valid()
      ensures ReferencesAreNodes(State().edges)
    {
      forall d, e | d in graph.Graph() && e in graph.Graph()[d]
        ensures e in graph.Graph()
      {
        graph.CalleesAreNodes(d, e);
      }
    }

    /** Main result: of the helpers, those that what is moved uses are in new.cc, and
        those that StaysInOldCC says are left in old.cc; so new.cc lacks no helper that
        something moved refers to, and old.cc none that what remains of old.h or a
        remaining helper refers to. */
    method OnEndOfTranslationUnit()
      requires graph.Valid() && removedDecls != []
      modifies this`newHeaderDecls, this`actualNewCCDecls, this`removedDecls
      ensures forall d :: d in newHeaderDecls <==> d in movedDecls && inHeader(d)
      ensures forall d :: d in movedDecls && d !in helperDeclarations ==> (d in actualNewCCDecls <==> !inHeader(d))
      ensures forall d :: d in helperDeclarations ==> (d in actualNewCCDecls <==> InNewCC(old(State()), d))
      ensures old(removedDecls) <= removedDecls
      ensures forall d :: d in removedDecls && d !in old(removedDecls) ==> d in helperDeclarations
      ensures forall d :: d in helperDeclarations ==> (d !in removedDecls <==> StaysInOldCC(old(State()), d))
      ensures HelpersAreMoved(old(State())) ==> NewCCLacksNothing(old(State()), actualNewCCDecls)
      ensures hasOldHeader ==> OldCCLacksNothing(old(State()), removedDecls)
    {
      ghost var f := State();
      GraphIsClosed();
      MoveDeclsToNewFiles();
      RemoveDeclsInOldFiles();
      assert actualNewCCDecls == NewCCOf(f) && removedDecls == RemovedOf(f);
      FilterElements(f.moved, set d | d in f.moved && f.inHeader(d));
      OthersPlaced(f);
      EverythingPlaced(f, actualNewCCDecls, removedDecls);
    }
  }

  /** Of the other declarations, new.cc gets what was moved and is not in old.h, and old.cc
      loses only what was to be removed. */
  lemma OthersPlaced(f: Findings)
    ensures forall d :: d in f.moved && d !in f.helpers ==> (d in NewCCOf(f) <==> !f.inHeader(d))
    ensures f.removed <= RemovedOf(f)
    ensures forall d :: d in RemovedOf(f) && d !in f.removed ==> d in f.helpers
  {
    FilterElements(f.moved, set d | d in f.moved && InNewCC(f, d));
    FilterElements(f.helpers, set d | d in f.helpers && !Uses(f.edges, f.outmost, f.unremoved, f.outmost(d)));
  }

  lemma EverythingPlaced(f: Findings, newCC: seq<Decl>, gone: seq<Decl>)
    requires ReferencesAreNodes(f.edges) && f.removed != [] && newCC == NewCCOf(f) && gone == RemovedOf(f)
    ensures forall d :: d in f.helpers ==> (d in newCC <==> InNewCC(f, d))
    ensures forall d :: d in f.helpers ==> (d !in gone <==> StaysInOldCC(f, d))
    ensures HelpersAreMoved(f) ==> NewCCLacksNothing(f, newCC)
    ensures f.hasOldHeader ==> OldCCLacksNothing(f, gone)
  {
    Placement(f);
    NothingIsMissing(f, newCC, gone);
  }

  /** Every helper that a removed declaration or a helper in new.cc refers to is there. */
  ghost predicate NewCCLacksNothing(f: Findings, newCC: seq<Decl>) {
    forall d, helper ::
      helper in f.helpers && RefersTo(f, d, helper) && (d in f.removed || (d in f.helpers && d in newCC)) ==> helper in newCC
  }

  /** Of the helpers that a remaining declaration of old.h or a helper left in old.cc
      refers to, exactly those are gone that were themselves to be removed. */
  ghost predicate OldCCLacksNothing(f: Findings, gone: seq<Decl>) {
    forall d, helper ::
      helper in f.helpers && RefersTo(f, d, helper) && (d in f.unremoved || (d in f.helpers && d !in gone))
      ==> (helper in gone <==> helper in f.removed)
  }

  lemma NothingIsMissing(f: Findings, newCC: seq<Decl>, gone: seq<Decl>)
    requires ReferencesAreNodes(f.edges)
    requires forall d :: d in f.helpers ==> (d in newCC <==> InNewCC(f, d))
    requires forall d :: d in f.helpers ==> (d !in gone <==> StaysInOldCC(f, d))
    ensures HelpersAreMoved(f) ==> NewCCLacksNothing(f, newCC)
    ensures f.hasOldHeader ==> OldCCLacksNothing(f, gone)
  {
    forall d, helper
      | HelpersAreMoved(f) && helper in f.helpers && RefersTo(f, d, helper) && (d in f.removed || (d in f.helpers && d in newCC))
      ensures helper in newCC
    {
      NewCCIsClosed(f, d, helper);
    }
    forall d, helper
      | f.hasOldHeader && helper in f.helpers && RefersTo(f, d, helper) && (d in f.unremoved || (d in f.helpers && d !in gone))
      ensures helper in gone <==> helper in f.removed
    {
      OldCCIsClosed(f, d, helper);
    }
  }

  /** What MoveDeclsToNewFiles puts into new.cc. */
  ghost function NewCCOf(f: Findings): seq<Decl> {
    Filter(f.moved, set d | d in f.moved && InNewCC(f, d))
  }

  /** What RemoveDeclsInOldFiles removes. */
  ghost function RemovedOf(f: Findings): seq<Decl> {
    if f.removed == [] || !f.hasOldHeader then f.removed
    else f.removed + Filter(f.helpers, set d | d in f.helpers && !Uses(f.edges, f.outmost, f.unremoved, f.outmost(d)))
  }

  lemma KeptAreInNewCC(f: Findings, newCCDecls: seq<Decl>, used: set<Decl>)
    requires newCCDecls == Filter(f.moved, set d | d in f.moved && !f.inHeader(d))
    requires forall d :: d in used <==> Uses(f.edges, f.outmost, SetOf(f.removed), d)
    ensures Filter(newCCDecls, set d | d in newCCDecls && (d in f.helpers ==> f.outmost(d) in used)) == NewCCOf(f)
  {
    var cc := set d | d in f.moved && !f.inHeader(d);
    var keep := set d | d in newCCDecls && (d in f.helpers ==> f.outmost(d) in used);
    FilterElements(f.moved, cc);
    assert forall d :: d in keep <==> d in f.moved && InNewCC(f, d);
    assert keep == set d | d in f.moved && InNewCC(f, d);
    FilterTwice(f.moved, cc, keep);
  }

  lemma UnusedAreRemoved(f: Findings, used: set<Decl>)
    requires forall d :: d in used <==> Uses(f.edges, f.outmost, f.unremoved, d)
    requires f.removed != [] && f.hasOldHeader
    ensures RemovedOf(f) == f.removed + Unused(f.helpers, f.outmost, used)
  {
    var unused := set d | d in f.helpers && f.outmost(d) !in used;
    assert unused == set d | d in f.helpers && !Uses(f.edges, f.outmost, f.unremoved, f.outmost(d));
  }

  lemma Placement(f: Findings)
    requires f.removed != []
    ensures forall d :: d in f.helpers ==> (d in NewCCOf(f) <==> InNewCC(f, d))
    ensures forall d :: d in f.helpers ==> (d !in RemovedOf(f) <==> StaysInOldCC(f, d))
  {
    FilterElements(f.moved, set d | d in f.moved && InNewCC(f, d));
    FilterElements(f.helpers, set d | d in f.helpers && !Uses(f.edges, f.outmost, f.unremoved, f.outmost(d)));
  }

  lemma UsedMore(edges: Edges, outmost: Decl -> Decl, roots: set<Decl>, root: Decl, nodes: set<CallGraphNode>, reachable: set<CallGraphNode>)
    requires forall d :: d in DeclSet(nodes) <==> Uses(edges, outmost, roots, d)
    requires forall d :: d in DeclSet(reachable) <==> Reaches(edges, outmost(root), d)
    ensures forall d :: d in DeclSet(nodes + reachable) <==> Uses(edges, outmost, roots + {root}, d)
  {
    assert DeclSet(nodes + reachable) == DeclSet(nodes) + DeclSet(reachable);
    forall d
      ensures d in DeclSet(nodes + reachable) <==> Uses(edges, outmost, roots + {root}, d)
    {
      UsesMore(edges, outmost, roots, root, d);
    }
  }

  lemma UsesMore(edges: Edges, outmost: Decl -> Decl, roots: set<Decl>, root: Decl, d: Decl)
    ensures Uses(edges, outmost, roots + {root}, d) <==> Uses(edges, outmost, roots, d) || Reaches(edges, outmost(root), d)
  {
  }

  lemma {:induction false} FilterElements(s: seq<Decl>, keep: set<Decl>)
    ensures forall d :: d in Filter(s, keep) <==> d in s && d in keep
  {
    if s != [] {
      FilterElements(s[1..], keep);
      assert s == [s[0]] + s[1..];
    }
  }

  lemma {:induction false} FilterTwice(s: seq<Decl>, first: set<Decl>, second: set<Decl>)
    requires second <= first
    ensures Filter(Filter(s, first), second) == Filter(s, second)
  {
    if s != [] {
      FilterTwice(s[1..], first, second);
      if s[0] in first {
        assert Filter(s, first)[1..] == Filter(s[1..], first);
      } else {
        assert Filter(s, first) == Filter(s[1..], first);
      }
    }
  }
}
