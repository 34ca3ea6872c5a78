# dom-compare in Dafny

This project models the comparison core of `dom-compare`. The tool compares two DOM snapshots captured from a browser and decides how far they agree. Each snapshot is a JSON tree of records, each with `nodeId`, `nodeName`, `nodeValue`, `parentId`, a flat `attributes` list and `children`. The Dafny model states and proves what the code promises.

The project has three parts:

- **Nodes** (`dom_node.dfy`, module `DomNode`), modelling `DOMNode.py`.
  - A node is built from a snapshot record. Its type is lower-cased. A sole `#text` child's text is hoisted into `value`, and the child list is deleted from the record.
  - Nodes can be compared in full (`__eq__`) or by structure (`CompareStructure`). Both rest on `CompareAttrs`, which ignores the order of `class` tokens.
  - Also modelled: the style-based visibility test, and reading a flat `[k1, v1, k2, v2, ...]` list into a map, with an optional allow-list.
  - `pystr.dfy` (module `PyStr`) gives the Python string operations these rely on: `lower()`, whitespace `split()`, `replace(' ', '')` and substring `in`.
- **Level-wise tree diff** (`lcs.dfy`, module `Lcs`; `tree_diff.dfy`, module `TreeDiff`), modelling `find_tree_diff.py`.
  - `SetupLCS` fills an `(n+1)×(m+1)` table. Only rows `0..n-1` and columns `0..m-1` are written, and Python's index `-1` reads the zero last row and column.
  - `GetCommonAndMissingNodes` backtracks through the table with the source's tie-break. It yields the matched reference nodes, the matched testing-side nodes and the missing reference nodes.
  - `Main` walks the two trees level by level with two queues of matched pairs. It builds a common tree and a list of missing nodes.
  - The LCS is generic over the node comparison. `TreeDiff.Matcher` supplies `NodesEqual` for the command-line flags.
- **Lock-step comparator** (`compare_dom_trees.dfy`, module `CompareDomTrees`), modelling `compare_dom_trees.py`.
  - Two raw snapshot trees are walked breadth-first side by side.
  - Records whose tag is on the skip list are popped and dropped with their subtrees.
  - Every other pair is constructed and compared. A sticky `matched` flag and two node counts are kept.
  - `AdvanceToNextMatch` drops records from the front of a queue up to the first one equal to a target node.

`scenarios.dfy` (module `Scenarios`) proves the cases asserted by `DOMNodeTest.py` and `find_tree_diff_test.py`, restated for the current constructor. `wrappers.dfy` holds `Option` and `Result`.

Points where the code behaves in a way worth noting, all modelled as the code does them:
- **Class tokens.** Two `class` values match when their whitespace-split token *lists* have the same length and the same set of tokens. So duplicate tokens count toward the length (`DOMNode.py:103-104`), not only the distinct ones.
- **Backtrack start.** The backtrack starts at `c[n-1][m-1]`, not at `c[n][m]` (`find_tree_diff.py:89`).
- **Root check.** It uses full equality even in structure mode (`find_tree_diff.py:21`).
- **Comparator skip list.** The comparator skips `head`, `#comment`, `#text` and `noscript`, plus `script` under `--hdp` (`compare_dom_trees.py:8`, `112-113`).
- **Serialise and re-read.** Serialising a node and constructing a node from the result does not give the node back. The serialised record has an empty child list, so the value is lost (`DomNode.SerializeRoundTrip`).

## Model

| member | source | states |
|---|---|---|
| PyStr.Lower | dom-compare/DOMNode.py:25 | `lower()` keeps the length, leaves no upper-case letter and leaves lower-case text unchanged |
| PyStr.SplitJoin | dom-compare/DOMNode.py:96-97 | splitting words joined by blanks gives back exactly those words |
| PyStr.RemoveSpaces | dom-compare/DOMNode.py:47 | `replace(' ', '')` leaves no blank and removes only blanks (multiset of the rest unchanged) |
| PyStr.ContainsAfterRemoveSpaces | dom-compare/DOMNode.py:47-48 | a blank-free declaration present in the style is still found after blanks are removed |
| PyStr.Split | dom-compare/DOMNode.py:96-97 | `split()` yields only non-empty tokens free of whitespace |
| PyStr.Contains | dom-compare/DOMNode.py:47-48 | `sub in s` holds when `s` starts with `sub` and only when `sub` is no longer than `s` |
| DomNode.NewNode | dom-compare/DOMNode.py:13-29 | the type is lower-cased and every other field is stored as given |
| DomNode.IsVisible | dom-compare/DOMNode.py:32-48 | exempt types and nodes without a style are visible; a hidden node's blank-stripped style contains one of the four hiding declarations |
| DomNode.HiddenByStyle | dom-compare/DOMNode.py:39-48 | a non-exempt node whose style contains `display:none` or `visibility:hidden` is not visible |
| DomNode.HiddenBySize | dom-compare/DOMNode.py:39-48 | the size rule needs both declarations: `height:0px` with `width:0px` hides a non-exempt node, and a blank-stripped style with only one of them and neither `display:none` nor `visibility:hidden` leaves it visible |
| DomNode.BlankInsideDeclarationHides | dom-compare/DOMNode.py:47-48 | `display: none` (a blank inside the declaration) hides the node too, since blanks are removed first |
| DomNode.ComparedKeys | dom-compare/DOMNode.py:72-78 | the compared keys are all keys, or only those among `class`/`id` in structure mode |
| DomNode.CompareAttrs | dom-compare/DOMNode.py:66-107 | matching maps have equal sizes (even in structure mode) and equal compared key sets; in structure mode both or neither carry `id` and `class`, and the `id` values agree |
| DomNode.CompareStructure | dom-compare/DOMNode.py:51-55 | structurally equal nodes have the same type and the same attribute count |
| DomNode.NodeEq | dom-compare/DOMNode.py:137-150 | equal nodes have the same type, value and attribute keys, and are structurally equal |
| DomNode.NodeNe | dom-compare/DOMNode.py:153-154 | different nodes differ in type, value or attributes; nodes differing only in id, parent and signature are not different |
| DomNode.CompareAttrsReflexive | dom-compare/DOMNode.py:66-107 | every attribute map matches itself in both modes |
| DomNode.CompareAttrsSymmetric | dom-compare/DOMNode.py:66-107 | attribute matching does not depend on the order of the two maps |
| DomNode.CompareAttrsTransitive | dom-compare/DOMNode.py:66-107 | attribute matching is transitive in both modes |
| DomNode.NodeEqIsEquivalence | dom-compare/DOMNode.py:137-154 | `__eq__` is reflexive, symmetric and transitive; `__ne__` is its negation |
| DomNode.CompareStructureIsEquivalence | dom-compare/DOMNode.py:51-55 | structural comparison is reflexive, symmetric and transitive |
| DomNode.FullImpliesStructure | dom-compare/DOMNode.py:51-55 | fully equal nodes are structurally equal |
| DomNode.StructureComparesAttributeCount | dom-compare/DOMNode.py:73-74 | structurally equal nodes have the same number of attributes, even though only class/id values are compared |
| DomNode.ClassTokensMatch | dom-compare/DOMNode.py:93-105 | class values with the same tokens counted with multiplicity match, whatever runs of whitespace separate them |
| DomNode.ClassOrderInvariance | dom-compare/DOMNode.py:93-105 | class strings made of the same tokens in any order match |
| DomNode.ReorderedClassesEqual | dom-compare/DOMNode.py:93-105 | two nodes differing only in the order of their class tokens are equal |
| DomNode.TypeCaseIgnored | dom-compare/DOMNode.py:24-29 | nodes whose types differ only in case, and whose ids, parents and signatures differ, are equal |
| DomNode.PairsToMap | dom-compare/DOMNode.py:199-204 | every key of the map passes the allow-list |
| DomNode.SerializeAttributes | dom-compare/DOMNode.py:193-205 | an odd-length list fails, and only then; otherwise the result is the map of the pairs |
| DomNode.PairsToMapKeys | dom-compare/DOMNode.py:199-204 | a key is in the map iff some pair names it and the allow-list keeps it |
| DomNode.PairsToMapLastWins | dom-compare/DOMNode.py:199-204 | a key's value is that of the last pair naming it |
| DomNode.PairsToMapHdp | dom-compare/DOMNode.py:197-203 | with `for_hdp` the map is the unfiltered one restricted to id, class, src and href |
| DomNode.Flatten | dom-compare/DOMNode.py:120-123 | the flat list holds each key in iteration order, followed by its value |
| DomNode.Serialize | dom-compare/DOMNode.py:110-125 | the record carries id, type, value, parent, the flattened attributes and an empty child list |
| DomNode.FlattenRoundTrip | dom-compare/DOMNode.py:121-123 | reading the flattened attributes without the filter gives back the same map, for every key order |
| DomNode.FlattenRestrict | dom-compare/DOMNode.py:120-123 | re-reading a flattened list gives the map restricted to the keys listed |
| DomNode.AfterConstruct | dom-compare/DOMNode.py:174-179 | a record with a sole `#text` child loses its child list; any other record is left unchanged; no other field changes |
| DomNode.NodeOf | dom-compare/DOMNode.py:171-181 | construction fails exactly when the attribute list has odd length; a built node keeps the record's id and the given signature |
| DomNode.NodeOfFields | dom-compare/DOMNode.py:171-181 | a sole text child's text becomes the value, otherwise the value is empty; the parent is `parentId` or -1; the attributes are the pairs of the list or none; the type is the lower-cased name |
| DomNode.ConstructDOMNodeObj | dom-compare/DOMNode.py:171-181 | builds the node or reports the odd attribute list, and updates the record as `AfterConstruct` says |
| DomNode.SerializeRoundTrip | dom-compare/DOMNode.py:110-125 | re-constructing a serialised node keeps everything but the value; the two nodes are equal iff the value was empty |
| Lcs.PyIndex | dom-compare/find_tree_diff.py:110-112 | index -1 reads the last row or column, other indices read themselves |
| Lcs.SetupLCS | dom-compare/find_tree_diff.py:93-116 | every written entry `c[i][j]` is the LCS length of the two inclusive prefixes; the last row and column stay 0 |
| Lcs.TableReads | dom-compare/find_tree_diff.py:110-112 | reads at -1 through Python indexing give the empty-prefix LCS length 0 |
| Lcs.AlignCorrect | dom-compare/find_tree_diff.py:128-149 | the backtrack from `(i, j)` picks a common subsequence of LCS length and splits `0..i` into matched and missing |
| Lcs.LcsUpperBound | dom-compare/find_tree_diff.py:107-112 | no common subsequence of the prefixes is longer than the table entry |
| Lcs.BacktrackIsLongest | dom-compare/find_tree_diff.py:128-149 | the full backtrack is a longest common subsequence, and every reference node is matched or missing, never both |
| Lcs.Align | dom-compare/find_tree_diff.py:132-149 | the matched index lists have equal length and all indices are in range |
| Lcs.GetCommonAndMissingNodes | dom-compare/find_tree_diff.py:128-149 | each of the three outputs is the picked nodes, in order, in front of what the deque held before |
| Lcs.AlignSelf | dom-compare/find_tree_diff_test.py:8-27 | under a reflexive comparison a list aligned with itself matches every position and misses none |
| Lcs.PartitionSizes | dom-compare/find_tree_diff.py:132-149 | the matched and missing index lists together have exactly one entry per reference node |
| TreeDiff.NodesEqual | dom-compare/find_tree_diff.py:152-161 | full equality is enough in every mode, and matching nodes have the same type |
| TreeDiff.NodesEqualIsEquivalence | dom-compare/find_tree_diff.py:152-161 | node matching is an equivalence in either mode |
| TreeDiff.NodesEqualModes | dom-compare/find_tree_diff.py:152-161 | without a command line matching is full equality, and full equality implies structural matching |
| TreeDiff.FindNodeIndex | dom-compare/find_tree_diff.py:164-171 | the result is the first index equal to the target, or -1 when none is |
| TreeDiff.CommonAndMissingCorrect | dom-compare/find_tree_diff.py:76-90 | matched lists are paired, order-preserving, longest; every reference child is matched or missing |
| TreeDiff.FindCommonNodes | dom-compare/find_tree_diff.py:76-90 | the three lists are the backtrack of the filled table from the last cells |
| TreeDiff.PairedStep | dom-compare/find_tree_diff.py:42-44 | extending both queues with matched lists keeps them the same length and paired |
| TreeDiff.DiffWithItself | dom-compare/find_tree_diff_test.py:8-27 | a level compared with itself is all common and nothing is missing |
| TreeDiff.DiffSingleDifferent | dom-compare/find_tree_diff_test.py:30-38 | two different single nodes give no common node, and the reference one is missing |
| TreeDiff.AddNode | dom-compare/find_tree_diff.py:26 | the first node becomes the root; later ones are appended under their parent; size grows by one |
| TreeDiff.AddChildren | dom-compare/find_tree_diff.py:47-48 | the matched nodes are appended, in order, under the front node's id, and size grows by their number |
| TreeDiff.AppendedFrom | dom-compare/find_tree_diff.py:47-48 | every child in the common tree is a child of the same parent in the reference tree |
| TreeDiff.QueueGetsLighter | dom-compare/find_tree_diff.py:28-44 | replacing the front node by its matched children lowers the work queued, so the walk ends |
| TreeDiff.WalkStep | dom-compare/find_tree_diff.py:28-48 | one iteration keeps queues paired, grows the common tree and appends the missing nodes in discovery order |
| TreeDiff.QueueOrderStep | dom-compare/find_tree_diff.py:29-44 | popping the front pair and queuing its matched children keeps both queues in breadth-first order |
| TreeDiff.DiffStep | dom-compare/find_tree_diff.py:29-48 | one iteration keeps the walk invariant and leaves less work queued |
| TreeDiff.DiffTrees | dom-compare/find_tree_diff.py:17-59 | the roots are checked with `!=` but the walk goes on; processed pairs match; the common tree is exactly each processed parent's matched children appended under it; the processed pairs are the roots followed by the matched children of the pairs before them, in breadth-first order; missing nodes follow that order; common + missing = 1 + children seen |
| TreeDiff.FindTreeDiff | dom-compare/find_tree_diff.py:9-59 | the walk under `NodesEqual` for the given flags, with the same common tree, visiting order and missing list |
| CompareDomTrees.SkipList | dom-compare/compare_dom_trees.py:112-113 | `--hdp` appends `script` to the four default tags |
| CompareDomTrees.ShouldSkipNode | dom-compare/compare_dom_trees.py:56-63 | true iff some tag equals the record's name, both lower-cased |
| CompareDomTrees.SkippedNames | dom-compare/compare_dom_trees.py:8 | a record is skipped iff its lower-cased name is head, #comment, #text or noscript, or script under `--hdp` |
| CompareDomTrees.CompareNodes | dom-compare/compare_dom_trees.py:66-72 | full equality passes in either mode; passing nodes have the same type and attribute count |
| CompareDomTrees.CompareNodesProperties | dom-compare/compare_dom_trees.py:66-72 | the rule is `NodesEqual` for the given flag; it is an equivalence; full equality implies structural equality |
| CompareDomTrees.Kept | dom-compare/compare_dom_trees.py:40-46 | a sole `#text` child is neither queued nor counted; otherwise all children are |
| CompareDomTrees.PopVisible | dom-compare/compare_dom_trees.py:25-31 | the record taken is never skipped, and popping an exhausted queue fails |
| CompareDomTrees.PopVisibleDropsSkipped | dom-compare/compare_dom_trees.py:25-31 | only skipped records are dropped before the one taken; failure iff every record left is skipped |
| CompareDomTrees.PopVisibleRecord | dom-compare/compare_dom_trees.py:25-31 | the skip loop takes the first record that is not skipped, or fails on an exhausted queue |
| CompareDomTrees.Bfs | dom-compare/compare_dom_trees.py:23-46 | the pruned breadth-first order visits no more records than the forest holds, and starts with the front record unless it is skipped |
| CompareDomTrees.BfsVisitsNoSkipped | dom-compare/compare_dom_trees.py:25-31 | no skipped record is visited |
| CompareDomTrees.BfsPrunesSkipped | dom-compare/compare_dom_trees.py:25-46 | every visited record was queued at the start or is a kept child of a record visited before it, so nothing below a skipped record is visited |
| CompareDomTrees.PopVisibleIsBfsStep | dom-compare/compare_dom_trees.py:25-46 | one round of the skip loop takes the next record of the pruned breadth-first order |
| CompareDomTrees.Walk | dom-compare/compare_dom_trees.py:23-46 | a finished walk visits as many records on each side, at most the records of side A; it can only fail once both queues are non-empty |
| CompareDomTrees.WalkFollowsBfs | dom-compare/compare_dom_trees.py:23-46 | a finished walk pairs the two pruned breadth-first orders position by position and stops when one is used up |
| CompareDomTrees.ProgressStep | dom-compare/compare_dom_trees.py:33-46 | an iteration clears `matched` on a failed pair and never sets it again, and adds the kept children to the counts |
| CompareDomTrees.ProgressStops | dom-compare/compare_dom_trees.py:25-34 | an error in an iteration is the outcome of the whole comparison |
| CompareDomTrees.VisitPair | dom-compare/compare_dom_trees.py:25-46 | one iteration either fails as the walk does or advances the state in step with it |
| CompareDomTrees.CompareTrees | dom-compare/compare_dom_trees.py:12-48 | the outcome is the walk's; `matched` iff every visited pair compares equal; counts are 1 plus the kept children |
| CompareDomTrees.SkippedRootFailsAsWritten | dom-compare/compare_dom_trees.py:25-27 | a skipped root record makes the first skip loop pop the empty queue, before any construction |
| CompareDomTrees.CommentRootFailsAsWritten | dom-compare/compare_dom_trees.py:25-27 | a snapshot whose root is a `#comment`, compared with any page, ends in an IndexError |
| CompareDomTrees.SelfComparisonFailsAsWritten | dom-compare/compare_dom_trees.py:25-31 | with the construction call of line 33 repaired, a page whose last record in breadth-first order is a comment, compared with itself, ends in an IndexError |
| CompareDomTrees.SelfComparisonMatches | dom-compare/compare_dom_trees.py:23-46 | with the corrected end, a tree compared with itself visits its whole pruned order and matches |
| CompareDomTrees.Advance | dom-compare/compare_dom_trees.py:83-88 | what is left is non-empty and no longer than the input |
| CompareDomTrees.AdvanceToNextMatch | dom-compare/compare_dom_trees.py:83-88 | drops records from the front until one equal to the target, or fails on an empty queue or a bad attribute list |
| CompareDomTrees.AdvanceStopsAtFirstMatch | dom-compare/compare_dom_trees.py:83-88 | what is left starts at the first equal record, as construction left it, followed by the rest of the input; exhaustion means none was equal |
| Scenarios.DivsMatch | dom-compare/find_tree_diff_test.py:8-16 | two test `div`s are equal exactly when their `abbc` values are |
| Scenarios.CompareTest | dom-compare/DOMNodeTest.py:12-23 | a node equals itself, differs from another type and another attribute set, and equals a copy with another id |
| Scenarios.ConstructTitleTest | dom-compare/DOMNodeTest.py:30-33 | the `TITLE` record becomes a `title` node holding its text child's value, and its child list is deleted |
| Scenarios.SingleNodeTests | dom-compare/find_tree_diff_test.py:19-38 | one equal node is common; one different node is missing |
| Scenarios.AlignExtraNodes | dom-compare/find_tree_diff_test.py:41-67 | the backtrack for the a,b,c,d,g / a,b,e,d,f match pattern picks positions 0,1,3 and misses 2,4 |
| Scenarios.ExtraNodesOutcome | dom-compare/find_tree_diff_test.py:41-67 | under any comparison with that match pattern, the common lists are positions 0, 1, 3 of each side and positions 2, 4 of the reference side are missing |
| Scenarios.ExtraNodesTest | dom-compare/find_tree_diff_test.py:41-67 | the test's own nodes give common a, b, d and missing c, g |
| Scenarios.AlignShiftedCards | dom-compare/find_tree_diff_test.py:69-100 | for the tr-card match pattern the backtrack pairs reference positions 2, 3, 4 with testing-side positions 3, 4, 5 and misses 0, 1, 5 |
| Scenarios.ShiftedCardsOutcome | dom-compare/find_tree_diff_test.py:69-100 | the common lists are exactly the 32, 33 and 34 cards of each side (reference positions 2-4, testing-side positions 3-5); the other reference cards are missing |

## Left out

- I/O and the command line are not modelled: file loading and JSON parsing (`utils.py`, `GetDOMTree`), argparse, console printing (`PrintLCSArray`, `PrintNodeList`, `PrintUnmatchedNodes`, `PrintNodes`, `__str__`) and dump files (`find_tree_diff.py:60-68`). Flags become parameters.
- `ComputeStructureHash` and `__hash__` rely on Python's built-in `hash`, a foreign function.
- `ConstructSignature` depends on Python's `str()` rendering of a list. Signatures are plain parameters.
- `DOMTree.py` is not a runnable revision of the tree class. The diff takes each tree as a map from parent id to children. The common tree is a value with a root, a parent-to-children map and a size. `AddNode` follows its use in `find_tree_diff.py`.
- The diff walk takes a ghost rank map that orders parents above children. It is used only to prove termination; the source has no cycle check.
- `find_tree_diff.py:58-59` (`None in correct_common_nodes`) is left out. The backtrack only ever picks real nodes, so the break never fires.
- PyStr.Lower: folds ASCII letters only; other Unicode case mappings of `str.lower()` are not modelled.
- Missing mandatory record keys (`nodeId`, `nodeName`, `nodeValue`), which raise `KeyError`, are not modelled. The record datatype always has them.
- Update in place is modelled by returning the new value. This covers the deletion of `children` in `ConstructDOMNodeObj`, the deques filled by `GetCommonAndMissingNodes` and the deque popped by `AdvanceToNextMatch`. Aliasing of those objects by other references is not captured.
- The global `TAGS_TO_SKIP` mutated at `compare_dom_trees.py:113` is modelled as the value `SkipList(hdp)` passed to the walk.
- Scenarios.ShiftedCardsOutcome: the class-token comparisons of the tr-card literals are taken as hypotheses (which pairs match) rather than evaluated on the literal strings. `ClassOrderInvariance` and `CompareAttrs` state the rule they follow.
- The test files construct `DOMNode` with four arguments and unpack two results from `FindCommonNodes`. The scenarios use the current six-argument constructor (parent -1, empty signature) and the three-result `FindCommonNodes`.
- CompareDomTrees.CompareTrees, CompareDomTrees.VisitPair, CompareDomTrees.Walk, CompareDomTrees.AdvanceToNextMatch: `compare_dom_trees.py:33-34` and `:87` call `ConstructDOMNodeObj` with one argument, but it takes two or three (`DOMNode.py:171`). As written, every run that reaches those lines raises TypeError. The model repairs the calls with an empty signature and `for_hdp = False`. Neither changes any comparison, because equality ignores signatures. The model does not capture the TypeError itself.
- Lcs.GetCommonAndMissingNodes: the source recurses once per step of the backtrack, up to n + m + 1 frames deep. Under CPython's default recursion limit of 1000, sibling lists of about 1000 nodes combined raise RuntimeError. The model has no depth limit and returns the alignment.
- The diff's node comparison is a parameter of the LCS and the walk (`Lcs`, `TreeDiff.DiffTrees`). `TreeDiff.Matcher` instantiates it with `NodesEqual`.

## Findings

| source | as written | input that shows it | evidently intended | confidence | as-written member | corrected member |
|---|---|---|---|---|---|---|
| dom-compare/compare_dom_trees.py:25-31 | the skip loops pop again while the popped record is skipped, even when the queue is already empty | a snapshot whose root record is a `#comment`, compared with any page: line 25 pops the root, which is skipped, and line 27 pops the empty queue, raising IndexError before any construction. Once the one-argument construction call at line 33 is repaired, comparing with itself a page `HTML` whose children are `BODY` and a `#comment` fails the same way (`SelfComparisonFailsAsWritten`) | a side whose remaining records are all skipped is exhausted, and the walk ends with a report | high; not executed | CompareDomTrees.CommentRootFailsAsWritten | CompareDomTrees.SelfComparisonMatches |
