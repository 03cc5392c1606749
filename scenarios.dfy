/**
 * Worked examples of the model: a pathway with two reactions that each make
 * ADP, a findMost tie, a findMost miss, and the uniqueness of the root.
 */
module Scenarios {
  import opened Biopax
  import opened Comparator
  import opened TreeNodes
  import opened TreeBuild
  import opened Aggregation
  import opened Search

  /** Two RDF-id-least pathways share their RDF id, so the selected root does
      not depend on the order in which the objects are scanned. */
  lemma RootUnique(objects: set<Element>, r1: Element, r2: Element)
    requires r1 in objects && r1.Pathway? && r2 in objects && r2.Pathway?
    requires forall e :: e in objects && e.Pathway? ==> Compare(r1, e) <= 0
    requires forall e :: e in objects && e.Pathway? ==> Compare(r2, e) <= 0
    ensures r1.id == r2.id
  {
    assert Compare(r1, r2) <= 0 && Compare(r2, r1) <= 0;
    CompareToAntisymmetric(r1.id, r2.id);
  }

  /** Pathway P directly holds reactions R1 and R2, each making one ADP:
      navigate from P stores 2 under P and ADP. */
  lemma TwoReactionsMakeTwoADP()
    ensures
      var adp1 := PhysicalEntity("e1", "ADP");
      var adp2 := PhysicalEntity("e2", "ADP");
      var r1 := Reaction("r1", "R1", {adp1}, []);
      var r2 := Reaction("r2", "R2", {adp2}, []);
      var p := Pathway("p", "P", [r1, r2]);
      Count(Visit(map[], Build(p), p), "P", "ADP") == 2
  {
    var adp1 := PhysicalEntity("e1", "ADP");
    var adp2 := PhysicalEntity("e2", "ADP");
    var r1 := Reaction("r1", "R1", {adp1}, []);
    var r2 := Reaction("r2", "R2", {adp2}, []);
    var p := Pathway("p", "P", [r1, r2]);
    var ts := [Tree(r1, []), Tree(r2, [])];
    assert BuildAll([r1, r2]) == ts;
    var q0 := Tally(map[], Contribution("P", {}));
    assert Visit(map[], Build(p), p) == VisitAll(q0, ts, p);
    TallyEffect(map[], Contribution("P", {}));
    assert Names({}) == {};
    NoneNamed({}, "ADP");
    assert Count(q0, "P", "ADP") == 0;
    LeafCount(q0, r1, adp1, p);
    LeafCount(Visit(q0, ts[0], p), r2, adp2, p);
    VisitAllStep(q0, ts, 0, p);
    VisitAllStep(q0, ts, 1, p);
    assert ts[..0] == [] && ts[..2] == ts;
  }

  /** Visiting a reaction leaf that makes one molecule adds 1 to that
      molecule's count under the current pathway. */
  lemma LeafCount(q: Table, r: Element, x: PhysicalEntity, p: Element)
    requires r.Reaction? && r.right == {x} && p.Pathway?
    ensures Count(Visit(q, Tree(r, []), p), p.name, x.name) == Count(q, p.name, x.name) + 1
  {
    assert Visit(q, Tree(r, []), p) == Tally(q, Contribution(p.name, {x}));
    TallyEffect(q, Contribution(p.name, {x}));
    NamedCountOne(x);
  }

  lemma NamedCountOne(x: PhysicalEntity)
    ensures NamedCount({x}, x.name) == 1
  {
    var none: set<PhysicalEntity> := {};
    assert Names(none) == {};
    NoneNamed(none, x.name);
    NamedCountStep(none, x, x.name);
    assert none + {x} == {x};
  }

  /** findMost("ADP") on {P1: 3, P2: 3, P3: 1} reports exactly P1 and P2. */
  lemma MostTie()
    ensures
      var q: Table := map["P1" := map["ADP" := 3], "P2" := map["ADP" := 3], "P3" := map["ADP" := 1]];
      forall p :: IsMost(q, "ADP", p) <==> p == "P1" || p == "P2"
  {
    var q: Table := map["P1" := map["ADP" := 3], "P2" := map["ADP" := 3], "P3" := map["ADP" := 1]];
    forall p ensures IsMost(q, "ADP", p) <==> p == "P1" || p == "P2" {
      if p == "P3" {
        assert q["P1"]["ADP"] > q[p]["ADP"];
      }
    }
  }

  /** A molecule no pathway makes is reported by no pathway. */
  lemma MostAbsent(q: Table, m: string)
    requires forall p :: p in q ==> m !in q[p]
    ensures forall p :: !IsMost(q, m, p)
  {
  }
}
