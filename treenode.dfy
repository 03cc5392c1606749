/**
 * A node of the pathway tree: it wraps one element, owns an ordered list of
 * child nodes, and caches, for a biochemical reaction, its products and its
 * participant stoichiometry.
 */
module TreeNodes {
  import opened Biopax

  /** The value a node and its descendants stand for. */
  datatype Tree = Tree(element: Element, children: seq<Tree>)

  /** The product set a node caches: the right-hand side of a reaction, none otherwise. */
  function ProductsOf(e: Element): Option<set<PhysicalEntity>> {
    if e.Reaction? then Some(e.right) else None
  }

  /** Participant display name to coefficient, entering participants in order,
      so that a later participant with the same name overwrites an earlier one. */
  function StoichMap(ps: seq<Stoichiometry>): map<string, Coefficient> {
    if ps == [] then map[]
    else StoichMap(ps[..|ps| - 1])[ps[|ps| - 1].entity.name := ps[|ps| - 1].coefficient]
  }

  /** The stoichiometry map a node caches: empty unless the element is a reaction. */
  function StoichiometryOf(e: Element): map<string, Coefficient> {
    if e.Reaction? then StoichMap(e.participants) else map[]
  }

  /** The map has an entry for exactly the names of the participants. */
  lemma {:induction false} StoichMapKeys(ps: seq<Stoichiometry>)
    ensures StoichMap(ps).Keys == set i | 0 <= i < |ps| :: ps[i].entity.name
  {
    if ps != [] {
      var init := ps[..|ps| - 1];
      StoichMapKeys(init);
      assert forall i :: 0 <= i < |init| ==> init[i] == ps[i];
      var names := set i | 0 <= i < |ps| :: ps[i].entity.name;
      assert names == (set i | 0 <= i < |init| :: init[i].entity.name) + {ps[|ps| - 1].entity.name} by {
        forall n | n in names
          ensures n in (set i | 0 <= i < |init| :: init[i].entity.name) + {ps[|ps| - 1].entity.name}
        {
          var i :| 0 <= i < |ps| && ps[i].entity.name == n;
          if i < |init| { assert init[i].entity.name == n; }
        }
      }
    }
  }

  /** A name maps to the coefficient of the last participant carrying it. */
  lemma {:induction false} StoichMapLastWins(ps: seq<Stoichiometry>, i: int)
    requires 0 <= i < |ps|
    requires forall j :: i < j < |ps| ==> ps[j].entity.name != ps[i].entity.name
    ensures ps[i].entity.name in StoichMap(ps)
    ensures StoichMap(ps)[ps[i].entity.name] == ps[i].coefficient
  {
    if i < |ps| - 1 {
      var init := ps[..|ps| - 1];
      assert init[i] == ps[i];
      StoichMapLastWins(init, i);
    }
  }

  class TreeNode {
    var children: seq<TreeNode>
    const element: Element
    const products: Option<set<PhysicalEntity>>
    const stoichiometry: map<string, Coefficient>

    /** The nodes of this subtree. */
    ghost var Repr: set<TreeNode>
    /** The value of this subtree. */
    ghost var Model: Tree

    /** A finite tree whose nodes each own their children; the caches agree
        with the element, and Model mirrors the children in order. */
    ghost predicate Valid()
      reads this, Repr
      decreases Repr
    {
      && this in Repr
      && products == ProductsOf(element)
      && stoichiometry == StoichiometryOf(element)
      && Model.element == element
      && |Model.children| == |children|
      && (forall i :: 0 <= i < |children| ==>
            && children[i] in Repr
            && children[i].Repr <= Repr
            && this !in children[i].Repr
            && children[i].Valid()
            && children[i].Model == Model.children[i])
      && (forall i, j :: 0 <= i < j < |children| ==> children[i].Repr !! children[j].Repr)
    }

    /** A leaf holding `e`, with the product set and the stoichiometry of a reaction. */
    constructor (e: Element)
      ensures Valid() && fresh(Repr) && Repr == {this}
      ensures element == e && children == [] && Model == Tree(e, [])
      ensures products == ProductsOf(e) && stoichiometry == StoichiometryOf(e)
      ensures products.Some? <==> e.Reaction?
      ensures e.Reaction? ==> products.value == e.right
      ensures !e.Reaction? ==> stoichiometry == map[]
      ensures e.Reaction? ==>
        stoichiometry.Keys == set i | 0 <= i < |e.participants| :: e.participants[i].entity.name
    {
      children := [];
      element := e;
      var m := map[];
      if e.Reaction? {
        products := Some(e.right);
        var stoich := e.participants;
        var i := 0;
        while i < |stoich|
          invariant 0 <= i <= |stoich|
          invariant m == StoichMap(stoich[..i])
        {
          var s := stoich[i];
          assert stoich[..i + 1][..i] == stoich[..i];
          m := m[s.entity.name := s.coefficient];
          i := i + 1;
        }
        assert stoich[..i] == stoich;
        StoichMapKeys(stoich);
      } else {
        products := None;
      }
      stoichiometry := m;
      Repr := {this};
      Model := Tree(e, []);
    }

    /** The display name of a pathway or a reaction; "Unnamed" for anything
        else, a physical entity included. */
    function ElementName(): (r: string)
      ensures element.Pathway? || element.Reaction? ==> r == element.name
      ensures element.Entity? || element.Other? ==> r == "Unnamed"
    {
      if element.Pathway? then element.name
      else if element.Reaction? then element.name
      else "Unnamed"
    }

    /** Appends `c` after the existing children. */
    method AddChild(c: TreeNode)
      requires Valid() && c.Valid() && Repr !! c.Repr
      modifies this
      ensures Valid()
      ensures children == old(children) + [c]
      ensures Repr == old(Repr) + c.Repr
      ensures Model == Tree(element, old(Model.children) + [c.Model])
    {
      children := children + [c];
      Repr := Repr + c.Repr;
      Model := Tree(element, Model.children + [c.Model]);
    }
  }
}
