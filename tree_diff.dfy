/**
 * The level-wise tree diff (dom-compare/find_tree_diff.py).
 *
 * Two trees are walked level by level from their roots. Under every pair of matched
 * parents the children lists are aligned by a longest common subsequence under node
 * equality; matched children become pairs for the next level and are added to a
 * common tree, unmatched children of the reference ("correct") tree are reported as
 * missing.
 */
module TreeDiff {
  import opened Wrappers
  import opened DomNode
  import opened Lcs

  // ---------------------------------------------------------------- node equality

  /** The parsed command line, or none when the module runs without `__main__` (as under its tests). */
  datatype Args = Unavailable | Args(onlyStructure: bool)

  /**
   * `NodesEqual`: structural comparison when `--only-structure` is given, full equality
   * otherwise, including when there is no command line at all.
   */
  function NodesEqual(args: Args, a: Node, b: Node): (same: bool)
    ensures NodeEq(a, b) ==> same
    ensures same ==> a.nodeType == b.nodeType
  {
    if args.Args? && args.onlyStructure then CompareStructure(a, b) else NodeEq(a, b)
  }

  /** In either mode node matching is an equivalence relation. */
  lemma NodesEqualIsEquivalence(args: Args, a: Node, b: Node, c: Node)
    ensures NodesEqual(args, a, a)
    ensures NodesEqual(args, a, b) <==> NodesEqual(args, b, a)
    ensures NodesEqual(args, a, b) && NodesEqual(args, b, c) ==> NodesEqual(args, a, c)
  {
    NodeEqIsEquivalence(a, b, c);
    CompareStructureIsEquivalence(a, b, c);
  }

  /** Without a command line the comparison is full equality, which implies structural equality. */
  lemma NodesEqualModes(a: Node, b: Node)
    ensures NodesEqual(Unavailable, a, b) == NodesEqual(Args(false), a, b)
    ensures NodesEqual(Args(false), a, b) ==> NodesEqual(Args(true), a, b)
  {
    if NodeEq(a, b) {
      FullImpliesStructure(a, b);
    }
  }

  /** `NodesEqual` as the comparison the alignment is parameterised by. */
  function Matcher(args: Args): (Node, Node) -> bool {
    (a: Node, b: Node) => NodesEqual(args, a, b)
  }

  /** `FindNodeIndex`: the first index whose node equals the target, or -1 when there is none. */
  method FindNodeIndex(target: Node, nodes: seq<Node>) returns (r: int)
    ensures -1 <= r < |nodes|
    ensures r >= 0 ==> NodeEq(nodes[r], target)
    ensures forall k :: 0 <= k < |nodes| && (r == -1 || k < r) ==> !NodeEq(nodes[k], target)
  {
    for i := 0 to |nodes|
      invariant forall k :: 0 <= k < i ==> !NodeEq(nodes[k], target)
    {
      if NodeEq(nodes[i], target) {
        return i;
      }
    }
    return -1;
  }

  // ---------------------------------------------------------------- one level

  /** The three node lists `FindCommonNodes` returns for two sibling lists under the comparison `eq`. */
  ghost function CommonAndMissing(eq: (Node, Node) -> bool, xs: seq<Node>, ys: seq<Node>): (seq<Node>, seq<Node>, seq<Node>)
  {
    var a := Align(eq, xs, ys, |xs| - 1, |ys| - 1);
    (Pick(xs, a.correctIdx), Pick(ys, a.testingIdx), Pick(xs, a.missingIdx))
  }

  /**
   * What `FindCommonNodes` promises: the matched lists are subsequences of the two
   * sibling lists, picked at increasing positions, that match position by position and
   * are as long as any common subsequence can be; every correct node is either matched
   * or missing, in its original order.
   */
  lemma CommonAndMissingCorrect(eq: (Node, Node) -> bool, xs: seq<Node>, ys: seq<Node>)
    ensures var r, a := CommonAndMissing(eq, xs, ys), Align(eq, xs, ys, |xs| - 1, |ys| - 1);
      && IsCommonSubsequence(eq, xs, ys, a.correctIdx, a.testingIdx)
      && r.0 == Pick(xs, a.correctIdx) && r.1 == Pick(ys, a.testingIdx)
      && Paired(eq, r.0, r.1)
      && (forall ix, jx :: IsCommonSubsequence(eq, xs, ys, ix, jx) ==> |ix| <= |r.0|)
      && Partitions(|xs|, a.correctIdx, a.missingIdx)
      && r.2 == Pick(xs, a.missingIdx)
      && |r.0| + |r.2| == |xs|
      && (forall k :: 0 <= k < |r.0| ==> r.0[k] in xs)
  {
    var a := Align(eq, xs, ys, |xs| - 1, |ys| - 1);
    BacktrackIsLongest(eq, xs, ys);
    PickIn(xs, a.correctIdx);
  }

  /** `FindCommonNodes`: builds the table, then backtracks from the last cells into three empty deques. */
  method FindCommonNodes(eq: (Node, Node) -> bool, xs: seq<Node>, ys: seq<Node>)
    returns (cc: seq<Node>, tc: seq<Node>, mn: seq<Node>)
    ensures (cc, tc, mn) == CommonAndMissing(eq, xs, ys)
  {
    var c := SetupLCS(eq, xs, ys);
    cc, tc, mn := GetCommonAndMissingNodes(eq, c, xs, ys, |xs| - 1, |ys| - 1, [], [], []);
    var a := Align(eq, xs, ys, |xs| - 1, |ys| - 1);
    assert cc == Pick(xs, a.correctIdx) + [] == Pick(xs, a.correctIdx);
    assert tc == Pick(ys, a.testingIdx) + [] == Pick(ys, a.testingIdx);
    assert mn == Pick(xs, a.missingIdx) + [] == Pick(xs, a.missingIdx);
  }

  /** `xs` and `ys` are equally long and match position by position under `eq`. */
  ghost predicate Paired(eq: (Node, Node) -> bool, xs: seq<Node>, ys: seq<Node>) {
    |xs| == |ys| && forall k :: 0 <= k < |xs| ==> eq(xs[k], ys[k])
  }

  /** Popping the front pair and queueing matched pairs keeps the queues paired. */
  lemma PairedStep(eq: (Node, Node) -> bool, xs: seq<Node>, ys: seq<Node>, cs: seq<Node>, ts: seq<Node>)
    requires Paired(eq, xs, ys) && |xs| > 0 && Paired(eq, cs, ts)
    ensures Paired(eq, xs[1..] + cs, ys[1..] + ts)
  {
    var xs', ys' := xs[1..] + cs, ys[1..] + ts;
    forall k | 0 <= k < |xs'|
      ensures eq(xs'[k], ys'[k])
    {
      if k < |xs| - 1 {
        assert xs'[k] == xs[k + 1] && ys'[k] == ys[k + 1];
      } else {
        assert xs'[k] == cs[k - |xs| + 1] && ys'[k] == ts[k - |xs| + 1];
      }
    }
  }

  /** Diffing a sibling list against itself matches all of it, in order, with nothing missing. */
  lemma DiffWithItself(args: Args, s: seq<Node>)
    ensures CommonAndMissing(Matcher(args), s, s) == (s, s, [])
  {
    forall x: Node ensures Matcher(args)(x, x) {
      NodesEqualIsEquivalence(args, x, x, x);
    }
    AlignSelf(Matcher(args), s, |s| - 1);
    PickAll(s);
  }

  /** Two single nodes that do not match give no common node, and the correct one is missing. */
  lemma DiffSingleDifferent(args: Args, x: Node, y: Node)
    requires !NodesEqual(args, x, y)
    ensures CommonAndMissing(Matcher(args), [x], [y]) == ([], [], [x])
  {
    var eq := Matcher(args);
    assert Align(eq, [x], [y], -1, -1) == Alignment([], [], []);
    assert Align(eq, [x], [y], 0, -1) == Alignment([], [], [0]);
    assert Align(eq, [x], [y], 0, 0) == Alignment([], [], [0]);
    assert Pick([x], [0]) == [x];
  }

  // ---------------------------------------------------------------- the common tree

  /** A tree as adjacency lists: parent id to its children in document order. */
  type Children = map<int, seq<Node>>

  /** `GetChildren`: the recorded children of a node, none when it has no entry. */
  function GetChildren(tree: Children, id: int): seq<Node> {
    if id in tree then tree[id] else []
  }

  /** The common tree being built: its root once set, its adjacency lists and its node count. */
  datatype CommonTree = CommonTree(root: Option<Node>, children: Children, size: nat)

  /**
   * `AddNode`: the first node added becomes the root; later ones are appended to the
   * children of `parentId`. Every call counts one node.
   */
  function AddNode(t: CommonTree, parentId: int, n: Node): (r: CommonTree)
    ensures r.size == t.size + 1
    ensures t.root.None? ==> r.root == Some(n) && r.children == t.children
    ensures t.root.Some? ==> r.root == t.root
    ensures t.root.Some? ==> r.children == t.children[parentId := GetChildren(t.children, parentId) + [n]]
  {
    if t.root.None? then CommonTree(Some(n), t.children, t.size + 1)
    else CommonTree(t.root, t.children[parentId := GetChildren(t.children, parentId) + [n]], t.size + 1)
  }

  /** The adjacency lists after appending `nodes` to the children of `parentId`; no entry is made for none. */
  function Appended(children: Children, parentId: int, nodes: seq<Node>): Children {
    if nodes == [] then children else children[parentId := GetChildren(children, parentId) + nodes]
  }

  /** The loop of `Main` that adds the matched children of one parent to the common tree. */
  method AddChildren(t: CommonTree, parentId: int, nodes: seq<Node>) returns (r: CommonTree)
    requires t.root.Some?
    ensures r.root == t.root && r.size == t.size + |nodes|
    ensures r.children == Appended(t.children, parentId, nodes)
  {
    r := t;
    for k := 0 to |nodes|
      invariant r.root == t.root && r.size == t.size + k
      invariant r.children == Appended(t.children, parentId, nodes[..k])
    {
      assert nodes[..k + 1] == nodes[..k] + [nodes[k]];
      assert GetChildren(r.children, parentId) == GetChildren(t.children, parentId) + nodes[..k];
      ghost var before := r.children;
      r := AddNode(r, parentId, nodes[k]);
      assert (GetChildren(t.children, parentId) + nodes[..k]) + [nodes[k]]
          == GetChildren(t.children, parentId) + nodes[..k + 1];
      if k > 0 {
        assert before == t.children[parentId := GetChildren(t.children, parentId) + nodes[..k]];
        assert r.children == t.children[parentId := GetChildren(t.children, parentId) + nodes[..k + 1]];
      }
    }
    assert nodes[..|nodes|] == nodes;
  }

  /** Every child the common tree lists under a parent is a child of that parent in `tree`. */
  predicate ChildrenFrom(children: Children, tree: Children) {
    forall p, k :: p in children && 0 <= k < |children[p]| ==> children[p][k] in GetChildren(tree, p)
  }

  /** Appending children of `parentId` taken from `tree` keeps the common tree inside `tree`. */
  lemma AppendedFrom(children: Children, tree: Children, parentId: int, nodes: seq<Node>)
    requires ChildrenFrom(children, tree)
    requires forall k :: 0 <= k < |nodes| ==> nodes[k] in GetChildren(tree, parentId)
    ensures ChildrenFrom(Appended(children, parentId, nodes), tree)
  {
    var cs := Appended(children, parentId, nodes);
    forall p, k | p in cs && 0 <= k < |cs[p]|
      ensures cs[p][k] in GetChildren(tree, p)
    {
      if p == parentId && nodes != [] {
        var existing := GetChildren(children, parentId);
        if k >= |existing| {
          assert cs[p][k] == nodes[k - |existing|];
        } else {
          assert cs[p][k] == children[p][k];
        }
      }
    }
  }

  // ---------------------------------------------------------------- termination of the walk

  /** Every child listed under a node has a lower rank than the node: the map describes a finite forest. */
  ghost predicate Ranked(tree: Children, rank: map<int, nat>) {
    forall p, k :: p in tree && 0 <= k < |tree[p]| ==>
      p in rank && tree[p][k].id in rank && rank[tree[p][k].id] < rank[p]
  }

  ghost function RankOf(rank: map<int, nat>, id: int): nat {
    if id in rank then rank[id] else 0
  }

  /** The number of paths from `id` down, itself included: the work left under a queued node. */
  ghost function Weight(tree: Children, rank: map<int, nat>, id: int): (w: nat)
    ensures w >= 1
    decreases RankOf(rank, id), 1, 0
  {
    1 + ChildrenWeight(tree, rank, id, |GetChildren(tree, id)|)
  }

  /** The weight of the first `k` children; a child out of rank order would weigh nothing. */
  ghost function ChildrenWeight(tree: Children, rank: map<int, nat>, id: int, k: nat): nat
    requires k <= |GetChildren(tree, id)|
    decreases RankOf(rank, id), 0, k
  {
    if k == 0 then 0
    else
      var child := GetChildren(tree, id)[k - 1];
      ChildrenWeight(tree, rank, id, k - 1)
        + if RankOf(rank, child.id) < RankOf(rank, id) then Weight(tree, rank, child.id) else 0
  }

  ghost function QueueWeight(tree: Children, rank: map<int, nat>, q: seq<Node>): nat {
    if q == [] then 0 else QueueWeight(tree, rank, q[..|q| - 1]) + Weight(tree, rank, q[|q| - 1].id)
  }

  lemma {:induction false} ChildrenWeightIsQueueWeight(tree: Children, rank: map<int, nat>, id: int, k: nat)
    requires Ranked(tree, rank) && k <= |GetChildren(tree, id)|
    ensures ChildrenWeight(tree, rank, id, k) == QueueWeight(tree, rank, GetChildren(tree, id)[..k])
  {
    if k > 0 {
      ChildrenWeightIsQueueWeight(tree, rank, id, k - 1);
      assert GetChildren(tree, id)[..k][..k - 1] == GetChildren(tree, id)[..k - 1];
    }
  }

  lemma {:induction false} QueueWeightAppend(tree: Children, rank: map<int, nat>, a: seq<Node>, b: seq<Node>)
    ensures QueueWeight(tree, rank, a + b) == QueueWeight(tree, rank, a) + QueueWeight(tree, rank, b)
    decreases |b|
  {
    if b == [] {
      assert a + b == a;
    } else {
      assert (a + b)[..|a + b| - 1] == a + b[..|b| - 1];
      QueueWeightAppend(tree, rank, a, b[..|b| - 1]);
    }
  }

  lemma {:induction false} QueueWeightPrefix(tree: Children, rank: map<int, nat>, q: seq<Node>, n: nat)
    requires n <= |q|
    ensures QueueWeight(tree, rank, q[..n]) <= QueueWeight(tree, rank, q)
    decreases |q|
  {
    if n < |q| {
      assert q[..|q| - 1][..n] == q[..n];
      QueueWeightPrefix(tree, rank, q[..|q| - 1], n);
    } else {
      assert q[..n] == q;
    }
  }

  /** Adding a node at the back of a queue adds its weight. */
  lemma QueueWeightSnoc(tree: Children, rank: map<int, nat>, q: seq<Node>, x: Node)
    ensures QueueWeight(tree, rank, q + [x]) == QueueWeight(tree, rank, q) + Weight(tree, rank, x.id)
  {
    assert (q + [x])[..|q|] == q;
  }

  /** Dropping the last position from a pick drops its last node. */
  lemma PickInit<T>(q: seq<T>, ix: seq<int>, n: nat)
    requires n <= |q| && ix != [] && Increasing(ix) && InRange(ix, n)
    ensures Increasing(ix[..|ix| - 1]) && InRange(ix[..|ix| - 1], ix[|ix| - 1])
    ensures Pick(q, ix) == Pick(q, ix[..|ix| - 1]) + [q[ix[|ix| - 1]]]
  {
    var init := ix[..|ix| - 1];
    forall k | 0 <= k < |init|
      ensures 0 <= init[k] < ix[|ix| - 1]
    {
      assert init[k] == ix[k];
    }
  }

  /** A list no heavier than the first `p` nodes, followed by node `p`, is no heavier than the first `n` nodes. */
  lemma QueueWeightExtend(tree: Children, rank: map<int, nat>, q: seq<Node>, a: seq<Node>, p: nat, n: nat)
    requires p < n <= |q|
    requires QueueWeight(tree, rank, a) <= QueueWeight(tree, rank, q[..p])
    ensures QueueWeight(tree, rank, a + [q[p]]) <= QueueWeight(tree, rank, q[..n])
  {
    QueueWeightSnoc(tree, rank, a, q[p]);
    assert q[..p + 1] == q[..p] + [q[p]];
    QueueWeightSnoc(tree, rank, q[..p], q[p]);
    assert q[..n][..p + 1] == q[..p + 1];
    QueueWeightPrefix(tree, rank, q[..n], p + 1);
  }

  /** A subsequence of a list weighs no more than the list. */
  lemma {:induction false} QueueWeightPick(tree: Children, rank: map<int, nat>, q: seq<Node>, ix: seq<int>, n: nat)
    requires n <= |q| && Increasing(ix) && InRange(ix, n)
    ensures QueueWeight(tree, rank, Pick(q, ix)) <= QueueWeight(tree, rank, q[..n])
    decreases |ix|
  {
    if ix != [] {
      var p := ix[|ix| - 1];
      PickInit(q, ix, n);
      QueueWeightPick(tree, rank, q, ix[..|ix| - 1], p);
      QueueWeightExtend(tree, rank, q, Pick(q, ix[..|ix| - 1]), p, n);
    }
  }

  /** Expanding the front of the queue into its matched children leaves less work queued. */
  lemma QueueGetsLighter(eq: (Node, Node) -> bool, tree: Children, rank: map<int, nat>,
                         front: Node, rest: seq<Node>, ys: seq<Node>, cc: seq<Node>)
    requires Ranked(tree, rank)
    requires cc == CommonAndMissing(eq, GetChildren(tree, front.id), ys).0
    ensures QueueWeight(tree, rank, rest + cc) < QueueWeight(tree, rank, [front] + rest)
  {
    var children := GetChildren(tree, front.id);
    var a := Align(eq, children, ys, |children| - 1, |ys| - 1);
    CommonAndMissingCorrect(eq, children, ys);
    QueueWeightAppend(tree, rank, [front], rest);
    assert [front][..0] == [];
    QueueWeightAppend(tree, rank, rest, cc);
    QueueWeightPick(tree, rank, children, a.correctIdx, |children|);
    assert children[..|children|] == children;
    ChildrenWeightIsQueueWeight(tree, rank, front.id, |children|);
  }

  // ---------------------------------------------------------------- the walk

  /** The number of children of all the given nodes. */
  ghost function ChildCount(tree: Children, ps: seq<Node>): nat {
    if ps == [] then 0 else ChildCount(tree, ps[..|ps| - 1]) + |GetChildren(tree, ps[|ps| - 1].id)|
  }

  /** The missing nodes reported for the given parent pairs, pair after pair. */
  ghost function MissingFrom(eq: (Node, Node) -> bool, correctTree: Children, testingTree: Children,
                             ps: seq<Node>, ts: seq<Node>): seq<Node>
    requires |ps| == |ts|
  {
    if ps == [] then []
    else
      MissingFrom(eq, correctTree, testingTree, ps[..|ps| - 1], ts[..|ts| - 1])
        + CommonAndMissing(eq, GetChildren(correctTree, ps[|ps| - 1].id),
                           GetChildren(testingTree, ts[|ts| - 1].id)).2
  }

  /** The common tree's adjacency lists after the given parent pairs: each one's matched children appended under it. */
  ghost function CommonFrom(eq: (Node, Node) -> bool, correctTree: Children, testingTree: Children,
                            ps: seq<Node>, ts: seq<Node>): Children
    requires |ps| == |ts|
  {
    if ps == [] then map[]
    else
      Appended(CommonFrom(eq, correctTree, testingTree, ps[..|ps| - 1], ts[..|ts| - 1]), ps[|ps| - 1].id,
               CommonAndMissing(eq, GetChildren(correctTree, ps[|ps| - 1].id),
                                GetChildren(testingTree, ts[|ts| - 1].id)).0)
  }

  /** The matched reference children of the given parent pairs, pair after pair: what the walk queues. */
  ghost function MatchedCorrect(eq: (Node, Node) -> bool, correctTree: Children, testingTree: Children,
                                ps: seq<Node>, ts: seq<Node>): seq<Node>
    requires |ps| == |ts|
  {
    if ps == [] then []
    else
      MatchedCorrect(eq, correctTree, testingTree, ps[..|ps| - 1], ts[..|ts| - 1])
        + CommonAndMissing(eq, GetChildren(correctTree, ps[|ps| - 1].id),
                           GetChildren(testingTree, ts[|ts| - 1].id)).0
  }

  /** The matched testing-side children of the given parent pairs, pair after pair. */
  ghost function MatchedTesting(eq: (Node, Node) -> bool, correctTree: Children, testingTree: Children,
                                ps: seq<Node>, ts: seq<Node>): seq<Node>
    requires |ps| == |ts|
  {
    if ps == [] then []
    else
      MatchedTesting(eq, correctTree, testingTree, ps[..|ps| - 1], ts[..|ts| - 1])
        + CommonAndMissing(eq, GetChildren(correctTree, ps[|ps| - 1].id),
                           GetChildren(testingTree, ts[|ts| - 1].id)).1
  }

  /**
   * The breadth-first queue discipline: what has been taken from each queue followed by
   * what is still on it is the root followed by the matched children of every pair taken,
   * in the order the pairs were taken.
   */
  ghost predicate QueueOrder(eq: (Node, Node) -> bool, correctTree: Children, testingTree: Children,
                             correctRoot: Node, testingRoot: Node,
                             queuedCorrect: seq<Node>, queuedTesting: seq<Node>,
                             processed: seq<Node>, partners: seq<Node>)
    requires |processed| == |partners|
  {
    && processed + queuedCorrect == [correctRoot] + MatchedCorrect(eq, correctTree, testingTree, processed, partners)
    && partners + queuedTesting == [testingRoot] + MatchedTesting(eq, correctTree, testingTree, processed, partners)
  }

  /** What holds of the walk's state between iterations. */
  ghost predicate WalkInvariant(eq: (Node, Node) -> bool, correctTree: Children, testingTree: Children,
                                correctRoot: Node, testingRoot: Node,
                                queuedCorrect: seq<Node>, queuedTesting: seq<Node>, common: CommonTree,
                                missing: seq<Node>, processed: seq<Node>, partners: seq<Node>)
  {
    && |queuedCorrect| == |queuedTesting|
    && common.root == Some(correctRoot)
    && |processed| == |partners|
    && |processed| + |queuedCorrect| == common.size
    && (|processed| == 0 ==> queuedCorrect == [correctRoot] && queuedTesting == [testingRoot])
    && (|processed| > 0 ==> processed[0] == correctRoot && partners[0] == testingRoot)
    && (|processed| > 0 ==> Paired(eq, queuedCorrect, queuedTesting))
    && (forall k :: 1 <= k < |processed| ==> eq(processed[k], partners[k]))
    && ChildrenFrom(common.children, correctTree)
    && common.size + |missing| == 1 + ChildCount(correctTree, processed)
    && missing == MissingFrom(eq, correctTree, testingTree, processed, partners)
    && common.children == CommonFrom(eq, correctTree, testingTree, processed, partners)
    && QueueOrder(eq, correctTree, testingTree, correctRoot, testingRoot,
                  queuedCorrect, queuedTesting, processed, partners)
  }

  /** Taking one more pair appends its matched children under it in the common tree. */
  lemma CommonFromStep(eq: (Node, Node) -> bool, correctTree: Children, testingTree: Children,
                       ps: seq<Node>, ts: seq<Node>, p: Node, t: Node)
    requires |ps| == |ts|
    ensures CommonFrom(eq, correctTree, testingTree, ps + [p], ts + [t])
         == Appended(CommonFrom(eq, correctTree, testingTree, ps, ts), p.id,
                     CommonAndMissing(eq, GetChildren(correctTree, p.id), GetChildren(testingTree, t.id)).0)
  {
    assert (ps + [p])[..|ps|] == ps;
    assert (ts + [t])[..|ts|] == ts;
  }

  /** Taking one more pair queues its matched children after all those queued before. */
  lemma MatchedStep(eq: (Node, Node) -> bool, correctTree: Children, testingTree: Children,
                    ps: seq<Node>, ts: seq<Node>, p: Node, t: Node)
    requires |ps| == |ts|
    ensures var cam := CommonAndMissing(eq, GetChildren(correctTree, p.id), GetChildren(testingTree, t.id));
      && MatchedCorrect(eq, correctTree, testingTree, ps + [p], ts + [t])
         == MatchedCorrect(eq, correctTree, testingTree, ps, ts) + cam.0
      && MatchedTesting(eq, correctTree, testingTree, ps + [p], ts + [t])
         == MatchedTesting(eq, correctTree, testingTree, ps, ts) + cam.1
  {
    assert (ps + [p])[..|ps|] == ps;
    assert (ts + [t])[..|ts|] == ts;
  }

  /** One iteration keeps the queue order: the popped pair moves to the taken side, its matches join the back. */
  lemma QueueOrderStep(eq: (Node, Node) -> bool, correctTree: Children, testingTree: Children,
                       correctRoot: Node, testingRoot: Node,
                       queuedCorrect: seq<Node>, queuedTesting: seq<Node>,
                       processed: seq<Node>, partners: seq<Node>, cc: seq<Node>, tc: seq<Node>)
    requires |processed| == |partners| && |queuedCorrect| > 0 && |queuedTesting| > 0
    requires QueueOrder(eq, correctTree, testingTree, correctRoot, testingRoot,
                        queuedCorrect, queuedTesting, processed, partners)
    requires cc == CommonAndMissing(eq, GetChildren(correctTree, queuedCorrect[0].id),
                                    GetChildren(testingTree, queuedTesting[0].id)).0
    requires tc == CommonAndMissing(eq, GetChildren(correctTree, queuedCorrect[0].id),
                                    GetChildren(testingTree, queuedTesting[0].id)).1
    ensures QueueOrder(eq, correctTree, testingTree, correctRoot, testingRoot,
                       queuedCorrect[1..] + cc, queuedTesting[1..] + tc,
                       processed + [queuedCorrect[0]], partners + [queuedTesting[0]])
  {
    MatchedStep(eq, correctTree, testingTree, processed, partners, queuedCorrect[0], queuedTesting[0]);
    var cam := CommonAndMissing(eq, GetChildren(correctTree, queuedCorrect[0].id),
                                GetChildren(testingTree, queuedTesting[0].id));
    QueueSideStep(processed, queuedCorrect, correctRoot,
                  MatchedCorrect(eq, correctTree, testingTree, processed, partners), cam.0);
    QueueSideStep(partners, queuedTesting, testingRoot,
                  MatchedTesting(eq, correctTree, testingTree, processed, partners), cam.1);
  }

  /** Moving the front of a queue to the taken side and queuing `more` extends the order by `more`. */
  lemma QueueSideStep<T>(taken: seq<T>, queued: seq<T>, root: T, order: seq<T>, more: seq<T>)
    requires |queued| > 0 && taken + queued == [root] + order
    ensures (taken + [queued[0]]) + (queued[1..] + more) == [root] + (order + more)
  {
    assert (taken + [queued[0]]) + (queued[1..] + more) == (taken + queued) + more;
  }

  /** One iteration keeps the two queues paired and counts the matched children. */
  lemma WalkStepQueues(eq: (Node, Node) -> bool, correctTree: Children, testingTree: Children,
                       queuedCorrect: seq<Node>, queuedTesting: seq<Node>, paired: bool,
                       cc: seq<Node>, tc: seq<Node>, mn: seq<Node>)
    requires |queuedCorrect| == |queuedTesting| > 0
    requires if paired then Paired(eq, queuedCorrect, queuedTesting) else |queuedCorrect| == 1
    requires (cc, tc, mn) == CommonAndMissing(eq, GetChildren(correctTree, queuedCorrect[0].id),
                                              GetChildren(testingTree, queuedTesting[0].id))
    ensures Paired(eq, queuedCorrect[1..] + cc, queuedTesting[1..] + tc)
    ensures |cc| + |mn| == |GetChildren(correctTree, queuedCorrect[0].id)|
    ensures forall k :: 0 <= k < |cc| ==> cc[k] in GetChildren(correctTree, queuedCorrect[0].id)
  {
    CommonAndMissingCorrect(eq, GetChildren(correctTree, queuedCorrect[0].id),
                            GetChildren(testingTree, queuedTesting[0].id));
    if paired {
      PairedStep(eq, queuedCorrect, queuedTesting, cc, tc);
    } else {
      assert queuedCorrect[1..] + cc == cc;
    }
  }

  /** One iteration appends the missing nodes of the popped pair to the report. */
  lemma WalkStepMissing(eq: (Node, Node) -> bool, correctTree: Children, testingTree: Children,
                        missing: seq<Node>, processed: seq<Node>, partners: seq<Node>,
                        correctFront: Node, testingFront: Node, mn: seq<Node>)
    requires |processed| == |partners|
    requires missing == MissingFrom(eq, correctTree, testingTree, processed, partners)
    requires mn == CommonAndMissing(eq, GetChildren(correctTree, correctFront.id),
                                    GetChildren(testingTree, testingFront.id)).2
    ensures missing + mn == MissingFrom(eq, correctTree, testingTree, processed + [correctFront], partners + [testingFront])
    ensures ChildCount(correctTree, processed + [correctFront])
         == ChildCount(correctTree, processed) + |GetChildren(correctTree, correctFront.id)|
  {
    assert (processed + [correctFront])[..|processed|] == processed;
    assert (partners + [testingFront])[..|partners|] == partners;
  }

  /** One iteration of the walk keeps its invariant. */
  lemma WalkStep(eq: (Node, Node) -> bool, correctTree: Children, testingTree: Children,
                 correctRoot: Node, testingRoot: Node,
                 queuedCorrect: seq<Node>, queuedTesting: seq<Node>, common: CommonTree,
                 missing: seq<Node>, processed: seq<Node>, partners: seq<Node>,
                 cc: seq<Node>, tc: seq<Node>, mn: seq<Node>)
    requires WalkInvariant(eq, correctTree, testingTree, correctRoot, testingRoot,
                           queuedCorrect, queuedTesting, common, missing, processed, partners)
    requires |queuedCorrect| > 0
    requires (cc, tc, mn) == CommonAndMissing(eq, GetChildren(correctTree, queuedCorrect[0].id),
                                              GetChildren(testingTree, queuedTesting[0].id))
    ensures WalkInvariant(eq, correctTree, testingTree, correctRoot, testingRoot,
                          queuedCorrect[1..] + cc, queuedTesting[1..] + tc,
                          CommonTree(common.root, Appended(common.children, queuedCorrect[0].id, cc), common.size + |cc|),
                          missing + mn, processed + [queuedCorrect[0]], partners + [queuedTesting[0]])
  {
    WalkStepQueues(eq, correctTree, testingTree, queuedCorrect, queuedTesting, |processed| > 0, cc, tc, mn);
    WalkStepMissing(eq, correctTree, testingTree, missing, processed, partners,
                    queuedCorrect[0], queuedTesting[0], mn);
    AppendedFrom(common.children, correctTree, queuedCorrect[0].id, cc);
    CommonFromStep(eq, correctTree, testingTree, processed, partners, queuedCorrect[0], queuedTesting[0]);
    QueueOrderStep(eq, correctTree, testingTree, correctRoot, testingRoot,
                   queuedCorrect, queuedTesting, processed, partners, cc, tc);
    var processed', partners' := processed + [queuedCorrect[0]], partners + [queuedTesting[0]];
    forall k | 1 <= k < |processed'|
      ensures eq(processed'[k], partners'[k])
    {
      if k == |processed| {
        assert processed'[k] == queuedCorrect[0] && partners'[k] == queuedTesting[0];
      } else {
        assert processed'[k] == processed[k] && partners'[k] == partners[k];
      }
    }
  }

  /**
   * One iteration of the walk: pop the front pair, align its children, queue the matched
   * pairs, add the matched reference children to the common tree under the reference
   * parent and report the missing ones.
   */
  method DiffStep(eq: (Node, Node) -> bool, correctTree: Children, testingTree: Children,
                  correctRoot: Node, testingRoot: Node, ghost rank: map<int, nat>,
                  queuedCorrect: seq<Node>, queuedTesting: seq<Node>, common: CommonTree,
                  missing: seq<Node>, ghost processed: seq<Node>, ghost partners: seq<Node>)
    returns (queuedCorrect': seq<Node>, queuedTesting': seq<Node>, common': CommonTree,
             missing': seq<Node>, ghost processed': seq<Node>, ghost partners': seq<Node>)
    requires Ranked(correctTree, rank) && |queuedCorrect| > 0
    requires WalkInvariant(eq, correctTree, testingTree, correctRoot, testingRoot,
                           queuedCorrect, queuedTesting, common, missing, processed, partners)
    ensures WalkInvariant(eq, correctTree, testingTree, correctRoot, testingRoot,
                          queuedCorrect', queuedTesting', common', missing', processed', partners')
    ensures QueueWeight(correctTree, rank, queuedCorrect') < QueueWeight(correctTree, rank, queuedCorrect)
  {
    var correctFront := queuedCorrect[0];
    var correctChildren := GetChildren(correctTree, correctFront.id);
    var testingFront := queuedTesting[0];
    var testingChildren := GetChildren(testingTree, testingFront.id);

    var cc, tc, mn := FindCommonNodes(eq, correctChildren, testingChildren);
    WalkStep(eq, correctTree, testingTree, correctRoot, testingRoot,
             queuedCorrect, queuedTesting, common, missing, processed, partners, cc, tc, mn);
    assert queuedCorrect == [correctFront] + queuedCorrect[1..];
    QueueGetsLighter(eq, correctTree, rank, correctFront, queuedCorrect[1..], testingChildren, cc);

    queuedCorrect' := queuedCorrect[1..] + cc;
    queuedTesting' := queuedTesting[1..] + tc;
    missing' := missing + mn;
    common' := AddChildren(common, correctFront.id, cc);
    processed' := processed + [correctFront];
    partners' := partners + [testingFront];
  }

  /**
   * The walk of `Main` under the comparison `eq`: pairs of nodes are taken from two
   * queues in step; the children of each pair are aligned, matched children are queued
   * in pairs and added to the common tree under the correct parent's id, and missing
   * ones are collected in the order they are found. `rootsMatch` is the full-equality
   * check of the two roots, which is only reported. The ghost `processed` and
   * `partners` list the pairs taken from the queues, in order.
   */
  method DiffTrees(eq: (Node, Node) -> bool, correctTree: Children, correctRoot: Node,
                   testingTree: Children, testingRoot: Node, ghost rank: map<int, nat>)
    returns (rootsMatch: bool, common: CommonTree, missing: seq<Node>,
             ghost processed: seq<Node>, ghost partners: seq<Node>)
    requires Ranked(correctTree, rank)
    ensures rootsMatch <==> NodeEq(correctRoot, testingRoot)
    ensures common.root == Some(correctRoot)
    ensures |processed| == |partners| == common.size >= 1
    ensures processed[0] == correctRoot && partners[0] == testingRoot
    ensures forall k :: 1 <= k < |processed| ==> eq(processed[k], partners[k])
    ensures ChildrenFrom(common.children, correctTree)
    ensures common.size + |missing| == 1 + ChildCount(correctTree, processed)
    ensures missing == MissingFrom(eq, correctTree, testingTree, processed, partners)
    ensures common.children == CommonFrom(eq, correctTree, testingTree, processed, partners)
    ensures processed == [correctRoot] + MatchedCorrect(eq, correctTree, testingTree, processed, partners)
    ensures partners == [testingRoot] + MatchedTesting(eq, correctTree, testingTree, processed, partners)
  {
    var queuedCorrect := [correctRoot];
    var queuedTesting := [testingRoot];
    rootsMatch := NodeEq(correctRoot, testingRoot);
    common := AddNode(CommonTree(None, map[], 0), -1, correctRoot);
    missing := [];
    processed, partners := [], [];
    while |queuedCorrect| > 0 && |queuedTesting| > 0
      invariant WalkInvariant(eq, correctTree, testingTree, correctRoot, testingRoot,
                              queuedCorrect, queuedTesting, common, missing, processed, partners)
      decreases QueueWeight(correctTree, rank, queuedCorrect)
    {
      queuedCorrect, queuedTesting, common, missing, processed, partners :=
        DiffStep(eq, correctTree, testingTree, correctRoot, testingRoot, rank,
                 queuedCorrect, queuedTesting, common, missing, processed, partners);
    }
    assert processed + queuedCorrect == processed && partners + queuedTesting == partners;
  }

  /**
   * `Main` without its I/O: the walk under `NodesEqual` as the command line selects it.
   * The size of the common tree is the number of matched pairs, the root pair included.
   */
  method FindTreeDiff(args: Args, correctTree: Children, correctRoot: Node,
                      testingTree: Children, testingRoot: Node, ghost rank: map<int, nat>)
    returns (rootsMatch: bool, common: CommonTree, missing: seq<Node>,
             ghost processed: seq<Node>, ghost partners: seq<Node>)
    requires Ranked(correctTree, rank)
    ensures rootsMatch <==> NodeEq(correctRoot, testingRoot)
    ensures common.root == Some(correctRoot)
    ensures |processed| == |partners| == common.size >= 1
    ensures processed[0] == correctRoot && partners[0] == testingRoot
    ensures forall k :: 1 <= k < |processed| ==> NodesEqual(args, processed[k], partners[k])
    ensures ChildrenFrom(common.children, correctTree)
    ensures common.size + |missing| == 1 + ChildCount(correctTree, processed)
    ensures missing == MissingFrom(Matcher(args), correctTree, testingTree, processed, partners)
    ensures common.children == CommonFrom(Matcher(args), correctTree, testingTree, processed, partners)
    ensures processed == [correctRoot] + MatchedCorrect(Matcher(args), correctTree, testingTree, processed, partners)
    ensures partners == [testingRoot] + MatchedTesting(Matcher(args), correctTree, testingTree, processed, partners)
  {
    rootsMatch, common, missing, processed, partners :=
      DiffTrees(Matcher(args), correctTree, correctRoot, testingTree, testingRoot, rank);
  }
}
