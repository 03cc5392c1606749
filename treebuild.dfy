/**
 * The tree that PathSearch.populate builds from an element: only pathways are
 * expanded, each component becoming one child in the order the components
 * are listed; every other element is a leaf.
 */
module TreeBuild {
  import opened Biopax
  import opened TreeNodes

  /** The fully expanded tree below `e`. */
  function Build(e: Element): Tree
    decreases e
  {
    Tree(e, if e.Pathway? then BuildAll(e.components) else [])
  }

  /** One expanded tree per component, in order. */
  function BuildAll(cs: seq<Element>): (r: seq<Tree>)
    ensures |r| == |cs|
    ensures forall i :: 0 <= i < |cs| ==> r[i] == Build(cs[i])
    decreases cs
  {
    if cs == [] then []
    else BuildAll(cs[..|cs| - 1]) + [Build(cs[|cs| - 1])]
  }

  /** The children populate appends below a node holding `e`. */
  function Expansion(e: Element): seq<Tree> {
    if e.Pathway? then BuildAll(e.components) else []
  }

  /** Every node of `t` is expanded the way populate expands it: a pathway
      node has one child per component, wrapping that component, in order;
      any other node has no children. */
  ghost predicate Expanded(t: Tree)
    decreases t
  {
    && (if t.element.Pathway?
        then |t.children| == |t.element.components|
             && forall i :: 0 <= i < |t.children| ==> t.children[i].element == t.element.components[i]
        else t.children == [])
    && forall i :: 0 <= i < |t.children| ==> Expanded(t.children[i])
  }

  lemma {:induction false} BuildIsExpanded(e: Element)
    ensures Build(e).element == e
    ensures Expanded(Build(e))
    decreases e
  {
    if e.Pathway? {
      var cs := e.components;
      forall i | 0 <= i < |cs| ensures Build(e).children[i].element == cs[i] && Expanded(Build(e).children[i]) {
        BuildIsExpanded(cs[i]);
      }
    }
  }

  /** Conversely, a fully expanded tree is the one built from its root element. */
  lemma {:induction false} ExpandedIsBuild(t: Tree)
    requires Expanded(t)
    ensures t == Build(t.element)
    decreases t
  {
    if t.element.Pathway? {
      var cs := t.element.components;
      forall i | 0 <= i < |t.children| ensures t.children[i] == Build(cs[i]) {
        ExpandedIsBuild(t.children[i]);
      }
      assert t.children == BuildAll(cs);
    }
  }
}
