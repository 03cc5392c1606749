# PathOptimizer core in Dafny

This project models the pathway-tree and product-tally engine of PathOptimizer
(`pathoptimizer/data`). The engine reads the objects of a BioPAX model and
does four things:

1. It picks the root pathway: the `Pathway` whose RDF id sorts first under
   `PathwayComparator`.
2. It builds a tree of `TreeNode`s below the root. Only pathways are
   expanded, one child per component.
3. It walks the tree in pre-order (`navigate`). Every product of every reaction
   is credited to the display name of the innermost enclosing pathway, in the
   `quantities` table (pathway name to product name to count).
4. It answers `findMost(molecule)`: the pathways with the largest count of
   that molecule.

It also models the small helper `parseRDFId`, which returns the part of an
RDF id after `#`.

Modules, one concern each:

- `Biopax` (`biopax.dfy`): the BioPAX objects, as one value datatype `Element` with
  the variants `Pathway(id, name, components)`, `Reaction(id, name, right,
  participants)`, `Entity(id, name)` and `Other(id)`.
- `Comparator` (`comparator.dfy`): Java's `String.compareTo` on RDF ids, and
  `PathwayComparator.compare`, with the order laws.
- `Sorting` (`sorting.dfy`): `Collections.sort` as a stable insertion sort,
  proved sorted and a permutation.
- `TreeNodes` (`treenode.dfy`): the `TreeNode` class. Its element and its two
  caches are constants; its children are a sequence that only `AddChild`
  appends to. The ghost `Repr` is the set of nodes it owns, and the ghost
  `Model` is the `Tree` value it stands for.
- `TreeBuild` (`treebuild.dfy`): `Build`, the tree that `populate` produces,
  with a characterisation of it (`Expanded`) proved equivalent.
- `Aggregation` (`aggregation.dfy`): `Visit`/`VisitAll` follow `navigate`
  step by step. `Contributions`/`Apply` are an independent description: each
  node's products, credited to the innermost `Pathway` on its own root path,
  tallied one node at a time. A lemma proves the two agree, and the
  properties of the final table are proved from the second.
- `Search` (`pathsearch.dfy`): the `PathSearch` class with its `quantities`
  table and `root`. It holds root selection, `Init`, `Populate`, `Navigate`
  and `FindMost` as imperative methods. Each is proved against the functions
  above.
- `RdfId` (`rdfid.dfy`): `parseRDFId`, with Java's `String.split` semantics
  (trailing empty fields dropped; a string without the separator splits into
  itself).
- `Scenarios` (`scenarios.dfy`): worked examples. Two reactions that each make
  ADP give a count of 2. A `findMost` tie reports both pathways. An absent
  molecule is reported by no pathway. The selected root is unique up to its
  RDF id.

Two consequences of how `findMost` scans:

- `findMost` starts from `most = 0` and appends on an equal count. A pathway
  whose stored count is exactly 0 would therefore be reported. `IsMost` keeps
  this: it asks for a count of at least 0.
- `navigate` never stores a count below 1 (`Aggregation.AggregatePositive`).
  So on tables that `navigate` built, a reported pathway has a count of at
  least 1 (`Search.MostExists`).

## Model

| member | source | states |
|---|---|---|
| Comparator.CompareTo | pathoptimizer/data/PathwayComparator.java:19 | `String.compareTo`: the difference of the first differing characters, or else the difference of the lengths; it is 0 exactly when the strings are equal |
| Comparator.Compare | pathoptimizer/data/PathwayComparator.java:17-20 | compares two elements by RDF id; 0 exactly when the ids are equal, so `compare(a, a) == 0` |
| Comparator.CompareToAntisymmetric | pathoptimizer/data/PathwayComparator.java:19 | `compare(a, b) == -compare(b, a)` for all ids |
| Comparator.CompareToTransitive | pathoptimizer/data/PathwayComparator.java:19 | `a <= b` and `b <= c` give `a <= c` |
| Comparator.CompareToPrefix | pathoptimizer/data/PathwayComparator.java:19 | a proper prefix compares below the longer string, by the length difference |
| Comparator.CompareToIsLexicographic | pathoptimizer/data/PathwayComparator.java:19 | negative exactly when the first id is lexicographically smaller (a proper prefix, or smaller at the first difference) |
| Comparator.CompareTotal | pathoptimizer/data/PathwayComparator.java:19 | any two elements are ordered one way or the other |
| Sorting.Insert | pathoptimizer/data/PathSearch.java:94 | inserting keeps every element and adds exactly the new one (multiset) |
| Sorting.InsertSorted | pathoptimizer/data/PathSearch.java:94 | inserting into a sorted sequence keeps it sorted |
| Sorting.Sort | pathoptimizer/data/PathSearch.java:94 | `Collections.sort` with the comparator: the result is sorted and is a permutation of the input |
| Sorting.SortedHeadIsLeast | pathoptimizer/data/PathSearch.java:94-98 | element 0 of a sorted sequence compares at or below every element |
| Search.SelectRoot | pathoptimizer/data/PathSearch.java:81-98 | fails exactly when there is no Pathway object; otherwise returns a Pathway object whose RDF id is at or below every Pathway's RDF id |
| Scenarios.RootUnique | pathoptimizer/data/PathSearch.java:94-98 | any two least pathways share their RDF id, so the root does not depend on iteration order |
| Search.PathSearch.constructor | pathoptimizer/data/PathSearch.java:30-35 | a new search has no root and an empty table |
| Search.PathSearch.Init | pathoptimizer/data/PathSearch.java:47-103 | empties the table; without a Pathway it fails with the table empty; otherwise the root holds the selected pathway, the tree below it is `Build` of that pathway, and the table is `Visit` of that tree from the root |
| TreeNodes.TreeNode.constructor | pathoptimizer/data/TreeNode.java:20-42 | a fresh leaf holding exactly the element; products are set exactly for reactions, to their right-hand side; the stoichiometry map is empty for non-reactions and, for a reaction, has one key per participant name, built left to right |
| TreeNodes.StoichMapKeys | pathoptimizer/data/TreeNode.java:32-40 | the stoichiometry keys are exactly the participants' display names |
| TreeNodes.StoichMapLastWins | pathoptimizer/data/TreeNode.java:32-40 | a name maps to the coefficient of the last participant with that name |
| TreeNodes.TreeNode.AddChild | pathoptimizer/data/TreeNode.java:44-46 | appends exactly one child at the end; earlier children, the element and the caches are unchanged; the tree stays well formed |
| TreeNodes.TreeNode.ElementName | pathoptimizer/data/TreeNode.java:61-71 | the display name for a pathway or reaction, "Unnamed" for anything else |
| TreeBuild.BuildAll | pathoptimizer/data/PathSearch.java:124-131 | one child per component, in order, each the expansion of its component |
| TreeBuild.BuildIsExpanded | pathoptimizer/data/PathSearch.java:119-133 | the built tree is expanded: pathway nodes have one child per component, wrapping it, and other nodes are leaves |
| TreeBuild.ExpandedIsBuild | pathoptimizer/data/PathSearch.java:119-133 | conversely, an expanded tree is the built tree of its root element, so the expansion is unique |
| Search.PathSearch.Populate | pathoptimizer/data/PathSearch.java:119-133 | only a Pathway node gains children: one per component, appended after the existing ones and expanded; earlier children are kept; all new nodes are fresh |
| Search.PathSearch.Grow | pathoptimizer/data/PathSearch.java:126-131 | one loop step: a new node for the component, expanded and appended as the last child |
| Search.AddProducts | pathoptimizer/data/PathSearch.java:158-170 | the product loop adds 1 per product under the product's display name, starting at 1 for a new name; the result is `Credit` |
| Aggregation.CreditStep | pathoptimizer/data/PathSearch.java:163-167 | crediting one more product raises its name's count by 1, or creates it at 1 |
| Aggregation.NamedCountStep | pathoptimizer/data/PathSearch.java:163-167 | one more product adds 1 to the number of products with its name and to no other |
| Aggregation.CreditNothing | pathoptimizer/data/PathSearch.java:158-159 | a node without products leaves the count map as it was |
| Search.PathSearch.Record | pathoptimizer/data/PathSearch.java:144-172 | one node's visit: the current pathway becomes the node when it is a Pathway; the table becomes `Tally` of the node's products under that pathway's name, written back even with no products |
| Aggregation.TallyEffect | pathoptimizer/data/PathSearch.java:151-172 | one node's visit adds the current pathway's key, leaves every other pathway's map unchanged, and raises each count of the current pathway by the number of products with that name |
| Search.PathSearch.Navigate | pathoptimizer/data/PathSearch.java:143-179 | the new table is `Visit` of the old table over the node's subtree, with the current pathway passed by value to each child |
| Aggregation.VisitAllStep | pathoptimizer/data/PathSearch.java:174-178 | the children loop, one child further, is one more `Visit` |
| Aggregation.VisitIsApply | pathoptimizer/data/PathSearch.java:143-179 | the recursive walk equals crediting each node, in pre-order, to the innermost Pathway on its own root path; sibling branches never see each other's current pathway |
| Aggregation.ApplyKeys | pathoptimizer/data/PathSearch.java:151-172 | after crediting a list of nodes, the keys are the old keys plus every credited pathway name |
| Aggregation.ApplyCounts | pathoptimizer/data/PathSearch.java:158-172 | after crediting a list of nodes, each count has risen by the number of credited products with that name under that pathway |
| Aggregation.ApplyPositive | pathoptimizer/data/PathSearch.java:163-167 | crediting keeps every count at least 1 |
| Aggregation.ContributionNames | pathoptimizer/data/PathSearch.java:148-172 | the pathway names credited below a node are its innermost enclosing pathway and every Pathway node of its subtree |
| Aggregation.AggregateKeys | pathoptimizer/data/PathSearch.java:148-172 | after navigate from a Pathway root, exactly the Pathway nodes of the tree have a key (added to any earlier keys), with or without products |
| Aggregation.AggregateCounts | pathoptimizer/data/PathSearch.java:158-170 | after navigate from the root, `quantities[P][m]` is the number of products named `m` over all nodes whose innermost enclosing pathway is named `P` |
| Aggregation.AggregatePositive | pathoptimizer/data/PathSearch.java:163-167 | navigate stores no count below 1 |
| Scenarios.TwoReactionsMakeTwoADP | pathoptimizer/data/PathSearch.java:143-179 | a pathway P with two reactions that each make one ADP gives `quantities["P"]["ADP"] == 2` |
| Scenarios.LeafCount | pathoptimizer/data/PathSearch.java:158-172 | visiting a reaction leaf with one product adds 1 to that product's count under the current pathway |
| Search.PathSearch.FindMost | pathoptimizer/data/PathSearch.java:206-230 | reports exactly the pathways whose count of the molecule is at least 0 and at least every other pathway's count, each once |
| Search.MostExists | pathoptimizer/data/PathSearch.java:206-230 | on a table with counts of at least 1, some pathway is reported exactly when some pathway has the molecule, and every reported count is at least 1 |
| Search.Largest | pathoptimizer/data/PathSearch.java:212-229 | among the pathways that have the molecule, one has the largest count |
| Scenarios.MostTie | pathoptimizer/data/PathSearch.java:221-227 | on {P1: 3, P2: 3, P3: 1}, exactly P1 and P2 are reported for ADP |
| Scenarios.MostAbsent | pathoptimizer/data/PathSearch.java:218-220 | a molecule that no pathway has is reported by no pathway |
| RdfId.ParseRDFId | pathoptimizer/data/PathSearch.java:247-254 | the second `#`-field when `split("#")` gives exactly two fields, else "Unknown"; the result never contains `#` |
| RdfId.JoinFields | pathoptimizer/data/PathSearch.java:248 | splitting at every separator and joining again gives back the string |
| RdfId.ParseRDFIdLabel | pathoptimizer/data/PathSearch.java:247-254 | `prefix#tail` (with any trailing `#`s) gives `tail`, when neither part contains `#` and tail is non-empty; `"#b"` gives `"b"` |
| RdfId.ParseRDFIdOnlyLabel | pathoptimizer/data/PathSearch.java:248-250 | conversely, two split fields arise only from `prefix#tail` followed by some number of `#` |
| RdfId.ParseRDFIdTrailingHash | pathoptimizer/data/PathSearch.java:248-252 | `"a#"` gives "Unknown", because split drops the trailing empty field |
| RdfId.ParseRDFIdThreeFields | pathoptimizer/data/PathSearch.java:248-252 | `"a#b#c"` gives "Unknown" |

## Left out

- Loading the OWL file (`FileInputStream`, `JenaIOHandler`, the `System.err` swap, the "could not be found" message and `System.exit`) is I/O through a foreign library. `Init` takes the loaded objects as a set instead. The case of a `null` model, which skips the analysis, is not modelled.
- `printTotals`, the printing in `findMost`, and `init`'s closing `findMost("ADP")` call and prints are console output only. `FindMost` is modelled as the query it performs.
- `PathOpt.java` and `Launcher.java` are not part of this model. They are file I/O, a BioPAX traverser callback and Swing start-up.
- Search.SelectRoot: with no Pathway object the code fails on `n.get(0)` with an index exception. The model returns `Failure(NoRootPathway)` instead, and `Init` then leaves `root` as it was.
- Stoichiometric coefficients are Java `float`s. They are modelled as opaque `real` values that are only stored, since no arithmetic is done on them.
- The `depth` parameter of `navigate` is unused, so it is omitted.
- `HashSet` iteration order is not modelled. A pathway's components and a reaction's participants are sequences in iteration order; a reaction's products and the model's objects are sets. Root selection, the tree shape up to that order, the table and the `findMost` result set do not depend on it; `FindMost` states its result as a set plus distinctness.
- BioPAX getters (`getRDFId`, `getDisplayName`, `getRight`, `getPathwayComponent`, `getParticipantStoichiometry`) are fields of the `Element` datatype. Elements are compared by value, so two distinct Java objects with equal fields are one element here.
- The component graph is acyclic, because `Element` is an inductive datatype. The source has no cycle guard; on a cyclic model the recursion of `populate` keeps growing the Java stack and ends in a `StackOverflowError`, which is not modelled.
- Comparator.CompareTo: RDF ids are assumed to contain no character above U+FFFF. Java compares UTF-16 code units, while a Dafny `char` is a Unicode scalar value and cannot hold a surrogate code unit. Below U+10000 one character is one code unit and the two orders agree; above it Java puts U+10000 before U+FFFF and the model does not.
- Display names (`getDisplayName`) are assumed non-null; `name` is a plain `string`. With a null name the code stores a pathway's map under the null key and `getElementName` returns null, which are not modelled.
- Search.PathSearch.FindMost: does not model the `NullPointerException` that `key1.equals(molecule)` throws on a product with a null display name, and thus not the failure of `init`, which calls `findMost("ADP")`. With names non-null, the model's `FindMost` never fails.
- Search.AddProducts: counts are unbounded integers. The code keeps them in Java `int`, where `curHash.get(..) + 1` wraps to a negative value past 2^31 - 1; the model does not capture that wrap, nor its effect on `Aggregation.AggregatePositive` and `Aggregation.AggregateCounts`.
- The getters `getChildren`, `getElement`, `getProducts` and `getStoichiometry` are reads of the `TreeNode` fields `children`, `element`, `products` and `stoichiometry`. A `null` product set is `None`.
- Search.PathSearch.Populate: the code attaches a new child before expanding it; the model expands it, then attaches it (`Grow`). Nothing reads the child in between, so the resulting tree is the same.
- Search.PathSearch.Navigate: the product loop (`AddProducts`) and the per-node step (`Record`) are separate methods that `Navigate` calls. The statements are the same ones, in the same order.
- Aliasing between `curHash` and the map stored in `quantities` is not modelled. Count maps are values, and the updated map is written back at the same point as in the code.
