/**
 * PathSearch: picks the root pathway, builds the pathway tree below it,
 * tallies the products of every pathway, and answers which pathway makes the
 * most of a molecule.
 */
module Search {
  import opened Biopax
  import opened Comparator
  import opened Sorting
  import opened TreeNodes
  import opened TreeBuild
  import opened Aggregation

  /** The one error of the core: the model holds no Pathway object, so there
      is no element 0 of the sorted candidates. */
  datatype SearchError = NoRootPathway

  datatype Result<T> = Success(value: T) | Failure(error: SearchError)

  ghost predicate HasPathway(objects: set<Element>) {
    exists e :: e in objects && e.Pathway?
  }

  /** `p` holds the largest count of `m` in `q`, and that count is not negative. */
  ghost predicate IsMost(q: Table, m: string, p: string) {
    && p in q && m in q[p] && q[p][m] >= 0
    && forall p' :: p' in q && m in q[p'] ==> q[p'][m] <= q[p][m]
  }

  /** Collects the Pathway objects, sorts them by RDF id and takes the first. */
  method SelectRoot(objects: set<Element>) returns (r: Result<Element>)
    ensures r.Failure? <==> !HasPathway(objects)
    ensures r.Success? ==> r.value in objects && r.value.Pathway?
    ensures r.Success? ==> forall e :: e in objects && e.Pathway? ==> Compare(r.value, e) <= 0
  {
    var n: seq<Element> := [];
    var rest := objects;
    while rest != {}
      invariant rest <= objects
      invariant forall e :: e in n <==> e in objects && e !in rest && e.Pathway?
      decreases rest
    {
      var bpe :| bpe in rest;
      if bpe.Pathway? {
        n := n + [bpe];
      }
      rest := rest - {bpe};
    }
    var sorted := Sort(n);
    assert forall e :: e in sorted <==> e in n by {
      forall e ensures e in sorted <==> e in n {
        assert e in sorted <==> e in multiset(sorted);
        assert e in n <==> e in multiset(n);
      }
    }
    if |sorted| == 0 {
      r := Failure(NoRootPathway);
    } else {
      r := Success(sorted[0]);
      forall e | e in objects && e.Pathway? ensures Compare(r.value, e) <= 0 {
        SortedHeadIsLeast(sorted, e);
      }
    }
  }

  /** navigate's product loop: adds 1 per product to the count kept under the
      product's display name, starting at 1 for a new name. */
  method AddProducts(counts: map<string, int>, products: set<PhysicalEntity>) returns (curHash: map<string, int>)
    ensures curHash == Credit(counts, products)
  {
    curHash := counts;
    var pe := products;
    ghost var done: set<PhysicalEntity> := {};
    CreditNothing(counts);
    while pe != {}
      invariant pe !! done && pe + done == products
      invariant curHash == Credit(counts, done)
      decreases pe
    {
      var p :| p in pe;
      CreditStep(counts, done, p);
      if p.name in curHash {
        curHash := curHash[p.name := curHash[p.name] + 1];
      } else {
        curHash := curHash[p.name := 1];
      }
      pe := pe - {p};
      done := done + {p};
    }
  }

  class PathSearch {
    var root: TreeNode?
    /** Pathway display name to product display name to quantity produced. */
    var quantities: Table

    /** A search with no tree and an empty table. */
    constructor ()
      ensures root == null && quantities == map[]
    {
      root := null;
      quantities := map[];
    }

    /** Runs the analysis on the objects of a loaded model: empties the table,
        selects the root, builds the tree below it and tallies it. */
    method Init(objects: set<Element>) returns (outcome: Result<Element>)
      modifies this
      ensures outcome.Failure? <==> !HasPathway(objects)
      ensures outcome.Failure? ==> root == old(root) && quantities == map[]
      ensures outcome.Success? ==>
        && outcome.value in objects && outcome.value.Pathway?
        && (forall e :: e in objects && e.Pathway? ==> Compare(outcome.value, e) <= 0)
        && root != null && root.Valid() && fresh(root.Repr)
        && root.element == outcome.value
        && root.Model == Build(outcome.value)
        && quantities == Visit(map[], root.Model, root.element)
    {
      quantities := map[];
      outcome := SelectRoot(objects);
      if outcome.Success? {
        var node := new TreeNode(outcome.value);
        root := node;
        Populate(node);
        Navigate(node, node.element);
      }
    }

    /** Expands a Pathway node: one new child per component, appended in
        order and expanded in turn. Any other node is left as it is. */
    method Populate(node: TreeNode)
      requires node.Valid()
      modifies node
      ensures node.Valid() && fresh(node.Repr - old(node.Repr))
      ensures |node.children| >= |old(node.children)|
      ensures node.children[..|old(node.children)|] == old(node.children)
      ensures node.Model == Tree(node.element, old(node.Model).children + Expansion(node.element))
      decreases node.element, 0
    {
      var bpe := node.element;
      if bpe.Pathway? {
        var components := bpe.components;
        ghost var before := node.children;
        var i := 0;
        while i < |components|
          invariant 0 <= i <= |components|
          invariant node.Valid() && fresh(node.Repr - old(node.Repr))
          invariant |node.children| == |before| + i
          invariant node.children[..|before|] == before
          invariant node.Model == Tree(bpe, old(node.Model).children + BuildAll(components[..i]))
        {
          var next := Grow(node, components[i]);
          assert components[..i + 1][..i] == components[..i];
          assert BuildAll(components[..i + 1]) == BuildAll(components[..i]) + [Build(components[i])];
          i := i + 1;
        }
        assert components[..i] == components;
      } else {
        assert old(node.Model).children + Expansion(bpe) == old(node.Model).children;
      }
    }

    /** One step of populate's loop: a new node for `e`, expanded and
        appended to the children of `node`. */
    method Grow(node: TreeNode, e: Element) returns (next: TreeNode)
      requires node.Valid()
      modifies node
      ensures node.Valid() && fresh(node.Repr - old(node.Repr))
      ensures node.children == old(node.children) + [next]
      ensures next.element == e
      ensures node.Model == Tree(node.element, old(node.Model).children + [Build(e)])
      decreases e, 1
    {
      next := new TreeNode(e);
      assert next !in node.Repr;
      Populate(next);
      assert next.Model == Build(e);
      node.AddChild(next);
    }

    /** The part of navigate that handles one node: picks the current
        pathway and credits the node's products to it. */
    method Record(node: TreeNode, cur: Element) returns (curPathway: Element)
      requires cur.Pathway?
      requires node.products == ProductsOf(node.element)
      modifies this`quantities
      ensures curPathway == Innermost(node.element, cur)
      ensures quantities == Tally(old(quantities), Contribution(curPathway.name, Produced(node.element)))
    {
      var bpe := node.element;
      curPathway := cur;
      if bpe.Pathway? {
        curPathway := bpe;
      }
      var curHash: map<string, int>;
      if curPathway.name in quantities {
        curHash := quantities[curPathway.name];
      } else {
        curHash := map[];
      }
      var j := node.products;
      if j.Some? {
        curHash := AddProducts(curHash, j.value);
      } else {
        CreditNothing(curHash);
      }
      quantities := quantities[curPathway.name := curHash];
    }

    /** Walks the subtree of `node` in pre-order, crediting the products of
        every node to its current pathway, which a Pathway node replaces for
        its own subtree only. */
    method Navigate(node: TreeNode, cur: Element)
      requires node.Valid() && cur.Pathway?
      modifies this`quantities
      ensures quantities == Visit(old(quantities), node.Model, cur)
      decreases node.Model
    {
      var curPathway := Record(node, cur);
      ghost var visited := quantities;
      assert Visit(old(quantities), node.Model, cur) == VisitAll(visited, node.Model.children, curPathway);
      var tn := node.children;
      ghost var subtrees := node.Model.children;
      var k := 0;
      while k < |tn|
        invariant 0 <= k <= |tn|
        invariant node.Valid()
        invariant quantities == VisitAll(visited, subtrees[..k], curPathway)
      {
        Navigate(tn[k], curPathway);
        VisitAllStep(visited, subtrees, k, curPathway);
        k := k + 1;
      }
      assert subtrees[..k] == subtrees;
    }

    /** The pathways with the largest count of `molecule`, each once; a
        pathway is reported only when its count is at least the initial 0. */
    method FindMost(molecule: string) returns (pathways: seq<string>)
      ensures forall p :: p in pathways <==> IsMost(quantities, molecule, p)
      ensures forall i, j :: 0 <= i < j < |pathways| ==> pathways[i] != pathways[j]
    {
      pathways := [];
      var most := 0;
      var keys := quantities.Keys;
      ghost var seen: set<string> := {};
      while keys != {}
        invariant keys !! seen && keys + seen == quantities.Keys
        invariant most >= 0
        invariant forall p :: p in seen && molecule in quantities[p] ==> quantities[p][molecule] <= most
        invariant most > 0 ==> exists p :: p in seen && molecule in quantities[p] && quantities[p][molecule] == most
        invariant forall p :: p in pathways <==> p in seen && molecule in quantities[p] && quantities[p][molecule] == most
        invariant forall i, j :: 0 <= i < j < |pathways| ==> pathways[i] != pathways[j]
        decreases keys
      {
        var key :| key in keys;
        var value := quantities[key];
        ghost var most0, pathways0 := most, pathways;
        var keys1 := value.Keys;
        while keys1 != {}
          invariant keys1 <= value.Keys
          invariant molecule in value && molecule !in keys1 ==>
            if most0 < value[molecule] then most == value[molecule] && pathways == [key]
            else if most0 == value[molecule] then most == most0 && pathways == pathways0 + [key]
            else most == most0 && pathways == pathways0
          invariant !(molecule in value && molecule !in keys1) ==> most == most0 && pathways == pathways0
          decreases keys1
        {
          var key1 :| key1 in keys1;
          if key1 == molecule {
            if most < value[key1] {
              pathways := [key];
              most := value[key1];
            } else if most == value[key1] {
              pathways := pathways + [key];
            }
          }
          keys1 := keys1 - {key1};
        }
        keys := keys - {key};
        seen := seen + {key};
      }
      forall p | IsMost(quantities, molecule, p) ensures p in pathways {
        if most > 0 {
          var w :| w in seen && molecule in quantities[w] && quantities[w][molecule] == most;
        }
      }
    }
  }

  /** With every count at least 1, findMost reports some pathway exactly when
      some pathway has the molecule at all, and every reported count is at
      least 1. */
  lemma {:induction false} MostExists(q: Table, m: string)
    requires Positive(q)
    ensures (exists p :: IsMost(q, m, p)) <==> (exists p :: p in q && m in q[p])
    ensures forall p :: IsMost(q, m, p) ==> q[p][m] >= 1
  {
    if p :| p in q && m in q[p] {
      var best := Largest(q, m, q.Keys);
      assert IsMost(q, m, best);
    }
  }

  /** Some key of `keys` has the largest count of `m` among them. */
  lemma {:induction false} Largest(q: Table, m: string, keys: set<string>) returns (best: string)
    requires keys <= q.Keys
    requires exists p :: p in keys && m in q[p]
    ensures best in keys && m in q[best]
    ensures forall p :: p in keys && m in q[p] ==> q[p][m] <= q[best][m]
    decreases keys
  {
    var p :| p in keys && m in q[p];
    var others := keys - {p};
    if exists o :: o in others && m in q[o] {
      var b := Largest(q, m, others);
      best := if q[b][m] < q[p][m] then p else b;
    } else {
      best := p;
    }
  }
}
