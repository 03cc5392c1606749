/**
 * What PathSearch.navigate computes: the table from pathway display name to
 * product display name to the number of times that product is made.
 *
 * Visit follows navigate's recursion: the current pathway is a by-value
 * parameter that a Pathway node replaces for its own subtree. Contributions
 * and Apply are an independent description: list, in pre-order, every node's
 * products together with the name of the innermost Pathway on the path from
 * the root to that node, then count them one entry at a time.
 */
module Aggregation {
  import opened Biopax
  import opened TreeNodes

  type Table = map<string, map<string, int>>

  /** The count map stored for pathway `p`, or a fresh empty one. */
  function Lookup(q: Table, p: string): map<string, int> {
    if p in q then q[p] else map[]
  }

  /** quantities[p][m], reading an absent entry as 0. */
  function Count(q: Table, p: string, m: string): int {
    if p in q && m in q[p] then q[p][m] else 0
  }

  /** Every stored count is at least 1. */
  ghost predicate Positive(q: Table) {
    forall p, m :: p in q && m in q[p] ==> q[p][m] >= 1
  }

  /** The products a node contributes: its cached product set, if any. */
  function Produced(e: Element): set<PhysicalEntity> {
    match ProductsOf(e)
    case Some(ps) => ps
    case None => {}
  }

  function Names(ps: set<PhysicalEntity>): set<string> {
    set p | p in ps :: p.name
  }

  /** How many of the products carry display name `m`. */
  function NamedCount(ps: set<PhysicalEntity>, m: string): nat {
    |set p | p in ps && p.name == m|
  }

  /** The count map after adding 1 per product, keyed by product name. */
  function Credit(counts: map<string, int>, ps: set<PhysicalEntity>): map<string, int> {
    map n | n in counts.Keys + Names(ps) :: (if n in counts then counts[n] else 0) + NamedCount(ps, n)
  }

  /** The current pathway after entering a node holding `e`. */
  function Innermost(e: Element, cur: Element): (r: Element)
    requires cur.Pathway?
    ensures r.Pathway?
  {
    if e.Pathway? then e else cur
  }

  /** One node's products, credited to one pathway name. */
  datatype Contribution = Contribution(pathway: string, products: set<PhysicalEntity>)

  /** The table after one node's visit: the entry for the credited pathway is
      fetched or created, credited and written back, even with no products. */
  function Tally(q: Table, c: Contribution): Table {
    q[c.pathway := Credit(Lookup(q, c.pathway), c.products)]
  }

  /** navigate(node, cur): visit the node, then each child in order with the
      (possibly replaced) current pathway. */
  function Visit(q: Table, t: Tree, cur: Element): Table
    requires cur.Pathway?
    decreases t
  {
    var p := Innermost(t.element, cur);
    VisitAll(Tally(q, Contribution(p.name, Produced(t.element))), t.children, p)
  }

  /** The loop over the children; every child receives the same `cur`. */
  function VisitAll(q: Table, ts: seq<Tree>, cur: Element): Table
    requires cur.Pathway?
    decreases ts
  {
    if ts == [] then q else Visit(VisitAll(q, ts[..|ts| - 1], cur), ts[|ts| - 1], cur)
  }

  /** The children loop, one child further. */
  lemma VisitAllStep(q: Table, ts: seq<Tree>, k: nat, cur: Element)
    requires cur.Pathway? && k < |ts|
    ensures VisitAll(q, ts[..k + 1], cur) == Visit(VisitAll(q, ts[..k], cur), ts[k], cur)
  {
    assert ts[..k + 1][..k] == ts[..k];
  }

  /** The innermost Pathway along `path` (root first), or `top` if there is none. */
  function Enclosing(path: seq<Element>, top: Element): (r: Element)
    requires top.Pathway?
    ensures r.Pathway?
  {
    if path == [] then top
    else if path[|path| - 1].Pathway? then path[|path| - 1]
    else Enclosing(path[..|path| - 1], top)
  }

  /** Pre-order list of every node's products with the name of its innermost
      enclosing pathway; `ancestors` is the path from the root to the parent. */
  function Contributions(t: Tree, ancestors: seq<Element>, top: Element): seq<Contribution>
    requires top.Pathway?
    decreases t
  {
    var path := ancestors + [t.element];
    [Contribution(Enclosing(path, top).name, Produced(t.element))]
      + ContributionsAll(t.children, path, top)
  }

  function ContributionsAll(ts: seq<Tree>, ancestors: seq<Element>, top: Element): seq<Contribution>
    requires top.Pathway?
    decreases ts
  {
    if ts == [] then []
    else ContributionsAll(ts[..|ts| - 1], ancestors, top) + Contributions(ts[|ts| - 1], ancestors, top)
  }

  /** Tallies the contributions one after another. */
  function Apply(q: Table, cs: seq<Contribution>): Table {
    if cs == [] then q else Tally(Apply(q, cs[..|cs| - 1]), cs[|cs| - 1])
  }

  /** The number of products named `m` among the contributions credited to `p`. */
  function Occurrences(cs: seq<Contribution>, p: string, m: string): nat {
    if cs == [] then 0
    else
      Occurrences(cs[..|cs| - 1], p, m)
        + (if cs[|cs| - 1].pathway == p then NamedCount(cs[|cs| - 1].products, m) else 0)
  }

  /** The display names of the Pathway nodes of a tree. */
  function PathwayNames(t: Tree): set<string>
    decreases t
  {
    (if t.element.Pathway? then {t.element.name} else {}) + PathwayNamesAll(t.children)
  }

  function PathwayNamesAll(ts: seq<Tree>): set<string>
    decreases ts
  {
    if ts == [] then {} else PathwayNamesAll(ts[..|ts| - 1]) + PathwayNames(ts[|ts| - 1])
  }

  // ---------------------------------------------------------------- counting

  lemma NoneNamed(ps: set<PhysicalEntity>, m: string)
    requires m !in Names(ps)
    ensures NamedCount(ps, m) == 0
  {
  }

  lemma SomeNamed(ps: set<PhysicalEntity>, m: string)
    requires m in Names(ps)
    ensures NamedCount(ps, m) >= 1
  {
    var p :| p in ps && p.name == m;
    var named := set q | q in ps && q.name == m;
    assert p in named;
    assert |named - {p}| + 1 == |named|;
  }

  /** One more product adds 1 to the count of its own name only. */
  lemma NamedCountStep(done: set<PhysicalEntity>, p: PhysicalEntity, n: string)
    requires p !in done
    ensures NamedCount(done + {p}, n) == NamedCount(done, n) + (if p.name == n then 1 else 0)
  {
    var old_named := set q | q in done && q.name == n;
    var new_named := set q | q in done + {p} && q.name == n;
    if n == p.name {
      assert new_named == old_named + {p};
    } else {
      assert new_named == old_named;
    }
  }

  /** navigate's product loop: crediting one more product adds 1 under its
      name, starting from 1 when the name is new. */
  lemma CreditStep(counts: map<string, int>, done: set<PhysicalEntity>, p: PhysicalEntity)
    requires p !in done
    ensures var before := Credit(counts, done);
      Credit(counts, done + {p})
        == before[p.name := (if p.name in before then before[p.name] else 0) + 1]
  {
    var before := Credit(counts, done);
    var after := Credit(counts, done + {p});
    var expected := before[p.name := (if p.name in before then before[p.name] else 0) + 1];
    assert Names(done + {p}) == Names(done) + {p.name};
    forall n | n in after ensures after[n] == expected[n] {
      NamedCountStep(done, p, n);
      if n == p.name && n !in before {
        NoneNamed(done, n);
      }
    }
    assert after == expected;
  }

  /** A node without products leaves its pathway's count map as it was. */
  lemma CreditNothing(counts: map<string, int>)
    ensures Credit(counts, {}) == counts
  {
    assert Names({}) == {};
  }

  /** One node's visit adds its pathway's key, changes no other pathway's
      entry, and raises each count of its pathway by the products so named. */
  lemma TallyEffect(q: Table, c: Contribution)
    ensures Tally(q, c).Keys == q.Keys + {c.pathway}
    ensures forall p :: p in q && p != c.pathway ==> Tally(q, c)[p] == q[p]
    ensures forall m :: Count(Tally(q, c), c.pathway, m) == Count(q, c.pathway, m) + NamedCount(c.products, m)
  {
    var counts := Lookup(q, c.pathway);
    forall m ensures Count(Tally(q, c), c.pathway, m) == Count(q, c.pathway, m) + NamedCount(c.products, m) {
      if m !in counts.Keys + Names(c.products) {
        NoneNamed(c.products, m);
      }
    }
  }

  // ------------------------------------------------------------ tally as fold

  lemma {:induction false} ApplyAppend(q: Table, xs: seq<Contribution>, ys: seq<Contribution>)
    ensures Apply(q, xs + ys) == Apply(Apply(q, xs), ys)
    decreases |ys|
  {
    if ys == [] {
      assert xs + ys == xs;
    } else {
      assert (xs + ys)[..|xs + ys| - 1] == xs + ys[..|ys| - 1];
      ApplyAppend(q, xs, ys[..|ys| - 1]);
    }
  }

  lemma EnclosingStep(ancestors: seq<Element>, e: Element, top: Element)
    requires top.Pathway?
    ensures Innermost(e, Enclosing(ancestors, top)) == Enclosing(ancestors + [e], top)
  {
    assert (ancestors + [e])[..|ancestors|] == ancestors;
  }

  /** navigate credits every node's products to the innermost Pathway on its
      own root path: the by-value current pathway never leaks between
      branches. */
  lemma {:induction false} VisitIsApply(q: Table, t: Tree, ancestors: seq<Element>, top: Element)
    requires top.Pathway?
    ensures Visit(q, t, Enclosing(ancestors, top)) == Apply(q, Contributions(t, ancestors, top))
    decreases t
  {
    var path := ancestors + [t.element];
    EnclosingStep(ancestors, t.element, top);
    var c := Contribution(Enclosing(path, top).name, Produced(t.element));
    VisitAllIsApply(Tally(q, c), t.children, path, top);
    assert Apply(q, [c]) == Tally(q, c);
    ApplyAppend(q, [c], ContributionsAll(t.children, path, top));
  }

  lemma {:induction false} VisitAllIsApply(q: Table, ts: seq<Tree>, ancestors: seq<Element>, top: Element)
    requires top.Pathway?
    ensures VisitAll(q, ts, Enclosing(ancestors, top)) == Apply(q, ContributionsAll(ts, ancestors, top))
    decreases ts
  {
    if ts != [] {
      var init, last := ts[..|ts| - 1], ts[|ts| - 1];
      VisitAllIsApply(q, init, ancestors, top);
      VisitIsApply(VisitAll(q, init, Enclosing(ancestors, top)), last, ancestors, top);
      ApplyAppend(q, ContributionsAll(init, ancestors, top), Contributions(last, ancestors, top));
    }
  }

  // ------------------------------------------------------ properties of Apply

  lemma {:induction false} ApplyKeys(q: Table, cs: seq<Contribution>)
    ensures Apply(q, cs).Keys == q.Keys + set c | c in cs :: c.pathway
  {
    if cs != [] {
      var init := cs[..|cs| - 1];
      ApplyKeys(q, init);
      TallyEffect(Apply(q, init), cs[|cs| - 1]);
      assert cs == init + [cs[|cs| - 1]];
      assert (set c | c in cs :: c.pathway) == (set c | c in init :: c.pathway) + {cs[|cs| - 1].pathway};
    }
  }

  lemma {:induction false} ApplyCounts(q: Table, cs: seq<Contribution>, p: string, m: string)
    ensures Count(Apply(q, cs), p, m) == Count(q, p, m) + Occurrences(cs, p, m)
  {
    if cs != [] {
      ApplyCounts(q, cs[..|cs| - 1], p, m);
      TallyEffect(Apply(q, cs[..|cs| - 1]), cs[|cs| - 1]);
    }
  }

  lemma {:induction false} ApplyPositive(q: Table, cs: seq<Contribution>)
    requires Positive(q)
    ensures Positive(Apply(q, cs))
  {
    if cs != [] {
      var before := Apply(q, cs[..|cs| - 1]);
      ApplyPositive(q, cs[..|cs| - 1]);
      var c := cs[|cs| - 1];
      var counts := Lookup(before, c.pathway);
      var credited := Credit(counts, c.products);
      forall n | n in credited ensures credited[n] >= 1 {
        if n !in counts {
          SomeNamed(c.products, n);
        }
      }
    }
  }

  // ----------------------------------------------- which pathways get a key

  /** The pathway names credited below a node: its own innermost enclosing
      pathway and every Pathway node of its subtree. */
  lemma {:induction false} ContributionNames(t: Tree, ancestors: seq<Element>, top: Element)
    requires top.Pathway?
    ensures (set c | c in Contributions(t, ancestors, top) :: c.pathway)
      == {Enclosing(ancestors + [t.element], top).name} + PathwayNames(t)
    decreases t
  {
    var path := ancestors + [t.element];
    var rest := ContributionsAll(t.children, path, top);
    ContributionNamesAll(t.children, path, top);
    var c0 := Contribution(Enclosing(path, top).name, Produced(t.element));
    assert (set c | c in [c0] + rest :: c.pathway) == {c0.pathway} + (set c | c in rest :: c.pathway);
    assert t.element.Pathway? ==> Enclosing(path, top) == t.element;
  }

  lemma {:induction false} ContributionNamesAll(ts: seq<Tree>, ancestors: seq<Element>, top: Element)
    requires top.Pathway?
    ensures PathwayNamesAll(ts) <= (set c | c in ContributionsAll(ts, ancestors, top) :: c.pathway)
    ensures (set c | c in ContributionsAll(ts, ancestors, top) :: c.pathway)
      <= {Enclosing(ancestors, top).name} + PathwayNamesAll(ts)
    decreases ts
  {
    if ts != [] {
      var init, last := ts[..|ts| - 1], ts[|ts| - 1];
      ContributionNamesAll(init, ancestors, top);
      ContributionNames(last, ancestors, top);
      EnclosingStep(ancestors, last.element, top);
      var xs: seq<Contribution> := ContributionsAll(init, ancestors, top);
      var ys: seq<Contribution> := Contributions(last, ancestors, top);
      assert (set c: Contribution | c in xs + ys :: c.pathway)
        == (set c | c in xs :: c.pathway) + (set c | c in ys :: c.pathway);
    }
  }

  // ------------------------------------------------------------- the result

  /** After navigate(root, root): exactly the Pathway nodes of the tree have a
      key, whether or not they contributed a product. */
  lemma AggregateKeys(q: Table, t: Tree)
    requires t.element.Pathway?
    ensures Visit(q, t, t.element).Keys == q.Keys + PathwayNames(t)
  {
    VisitIsApply(q, t, [], t.element);
    ApplyKeys(q, Contributions(t, [], t.element));
    ContributionNames(t, [], t.element);
    assert [] + [t.element] == [t.element];
  }

  /** After navigate(root, root): quantities[p][m] is the number of products
      named `m` over all nodes whose innermost enclosing pathway is named `p`. */
  lemma AggregateCounts(q: Table, t: Tree, p: string, m: string)
    requires t.element.Pathway?
    ensures Count(Visit(q, t, t.element), p, m)
      == Count(q, p, m) + Occurrences(Contributions(t, [], t.element), p, m)
  {
    VisitIsApply(q, t, [], t.element);
    ApplyCounts(q, Contributions(t, [], t.element), p, m);
  }

  /** navigate stores no count below 1. */
  lemma AggregatePositive(q: Table, t: Tree, cur: Element)
    requires cur.Pathway? && Positive(q)
    ensures Positive(Visit(q, t, cur))
  {
    assert Enclosing([], cur) == cur;
    VisitIsApply(q, t, [], cur);
    ApplyPositive(q, Contributions(t, [], cur));
  }
}
