/**
 * The lock-step breadth-first comparator of `compare_dom_trees.py`.
 *
 * Two raw snapshot trees are walked side by side, one queue each. A record
 * whose tag is on the skip list is popped and dropped together with its
 * subtree, every other record is turned into a node and compared with its
 * partner on the other side, and its children are queued and counted.
 */
module CompareDomTrees {
  import opened Wrappers
  import opened PyStr
  import opened DomNode
  import TreeDiff

  /** Why a comparison stops before reaching a verdict. */
  datatype CompareError =
    | QueueExhausted         // `popleft()` or `[0]` on an empty deque (IndexError)
    | Construct(e: DomError) // a record whose attribute list cannot be read

  /** What `Main` reports: whether every visited pair matched, and the two node counts. */
  datatype Report = Report(matched: bool, aCount: nat, bCount: nat)

  // ---------------------------------------------------------------- skip list

  /** The tags that are dropped by default. */
  const TagsToSkip: seq<string> := ["head", "#comment", "#text", "noscript"]

  /** The global skip list, after `--hdp` has appended `script` to it. */
  function SkipList(hdp: bool): (tags: seq<string>)
    ensures |tags| == if hdp then 5 else 4
    ensures tags[..4] == TagsToSkip
    ensures hdp ==> tags[4] == "script"
  {
    if hdp then TagsToSkip + ["script"] else TagsToSkip
  }

  /** Some tag of the list equals the record's name, both folded to lower case. */
  ghost predicate Skipped(tags: seq<string>, rec: Record) {
    exists k :: 0 <= k < |tags| && Lower(rec.nodeName) == Lower(tags[k])
  }

  /** `ShouldSkipNode`: the scan over the skip list, stopping at the first tag that matches. */
  method ShouldSkipNode(tags: seq<string>, rec: Record) returns (skip: bool)
    ensures skip <==> Skipped(tags, rec)
  {
    for k := 0 to |tags|
      invariant forall i :: 0 <= i < k ==> Lower(rec.nodeName) != Lower(tags[i])
    {
      if Lower(rec.nodeName) == Lower(tags[k]) {
        return true;
      }
    }
    return false;
  }

  /**
   * With the program's skip list a record is skipped exactly when its
   * lower-cased name is one of the four default tags, or `script` under `--hdp`.
   */
  lemma SkippedNames(hdp: bool, rec: Record)
    ensures Skipped(SkipList(hdp), rec) <==>
      Lower(rec.nodeName) in {"head", "#comment", "#text", "noscript"}
      || (hdp && Lower(rec.nodeName) == "script")
  {
    var tags := SkipList(hdp);
    assert IsLowerStr("head") && IsLowerStr("#comment") && IsLowerStr("#text") && IsLowerStr("noscript");
    assert IsLowerStr("script");
    assert Lower(tags[0]) == "head" && Lower(tags[1]) == "#comment";
    assert Lower(tags[2]) == "#text" && Lower(tags[3]) == "noscript";
    if hdp {
      assert Lower(tags[4]) == "script";
    }
  }

  // ---------------------------------------------------------------- comparing a pair

  /** `CompareNodes`: structural comparison under `--only-structure`, full equality otherwise. */
  function CompareNodes(onlyStructure: bool, a: Node, b: Node): (same: bool)
    ensures NodeEq(a, b) ==> same
    ensures same ==> a.nodeType == b.nodeType && |a.attributes| == |b.attributes|
  {
    if onlyStructure then CompareStructure(a, b) else NodeEq(a, b)
  }

  /**
   * The comparator's rule is the diff's `NodesEqual` with a command line
   * present; in either mode it is an equivalence, and full equality implies
   * structural equality.
   */
  lemma CompareNodesProperties(onlyStructure: bool, a: Node, b: Node, c: Node)
    ensures CompareNodes(onlyStructure, a, b) == TreeDiff.NodesEqual(TreeDiff.Args(onlyStructure), a, b)
    ensures CompareNodes(onlyStructure, a, a)
    ensures CompareNodes(onlyStructure, a, b) ==> CompareNodes(onlyStructure, b, a)
    ensures CompareNodes(onlyStructure, a, b) && CompareNodes(onlyStructure, b, c) ==> CompareNodes(onlyStructure, a, c)
    ensures CompareNodes(false, a, b) ==> CompareNodes(true, a, b)
  {
    NodeEqIsEquivalence(a, b, c);
    CompareStructureIsEquivalence(a, b, c);
    if NodeEq(a, b) {
      FullImpliesStructure(a, b);
    }
  }

  // ---------------------------------------------------------------- sizes

  /** The children a record lists, none when it has no `children` key. */
  function Children(rec: Record): seq<Record> {
    if rec.children.Listed? then rec.children.records else []
  }

  /** The number of records in a snapshot tree. */
  function RecordSize(rec: Record): (n: nat)
    ensures n >= 1
    decreases rec, 1, 0
  {
    1 + ChildrenSize(rec, |Children(rec)|)
  }

  /** The number of records under the first `k` children of `rec`. */
  function ChildrenSize(rec: Record, k: nat): nat
    requires k <= |Children(rec)|
    decreases rec, 0, k
  {
    if k == 0 then 0
    else
      match rec.children
      case Listed(cs) =>
        assert cs[k - 1] in cs;
        ChildrenSize(rec, k - 1) + RecordSize(cs[k - 1])
  }

  /** The number of records in a list of snapshot trees. */
  function ForestSize(recs: seq<Record>): nat {
    if recs == [] then 0 else ForestSize(recs[..|recs| - 1]) + RecordSize(recs[|recs| - 1])
  }

  lemma {:induction false} ChildrenSizeIsForestSize(rec: Record, k: nat)
    requires k <= |Children(rec)|
    ensures ChildrenSize(rec, k) == ForestSize(Children(rec)[..k])
  {
    if k > 0 {
      ChildrenSizeIsForestSize(rec, k - 1);
      assert Children(rec)[..k][..k - 1] == Children(rec)[..k - 1];
    }
  }

  lemma {:induction false} ForestSizeAppend(xs: seq<Record>, ys: seq<Record>)
    ensures ForestSize(xs + ys) == ForestSize(xs) + ForestSize(ys)
    decreases |ys|
  {
    if ys == [] {
      assert xs + ys == xs;
    } else {
      assert (xs + ys)[..|xs + ys| - 1] == xs + ys[..|ys| - 1];
      ForestSizeAppend(xs, ys[..|ys| - 1]);
    }
  }

  /** A queue weighs its front record plus the rest. */
  lemma ForestSizeFront(q: seq<Record>)
    requires q != []
    ensures ForestSize(q) == RecordSize(q[0]) + ForestSize(q[1..])
  {
    ForestSizeAppend([q[0]], q[1..]);
    assert [q[0]] + q[1..] == q;
    assert [q[0]][..0] == [];
  }

  /**
   * The children a visited record puts on its queue: those left after
   * construction, which deletes a sole `#text` child.
   */
  function Kept(rec: Record): (cs: seq<Record>)
    ensures HasSoleTextChild(rec) ==> cs == []
    ensures !HasSoleTextChild(rec) && rec.children.Listed? ==> cs == rec.children.records
    ensures ForestSize(cs) < RecordSize(rec)
  {
    ChildrenSizeIsForestSize(rec, |Children(rec)|);
    assert Children(rec)[..|Children(rec)|] == Children(rec);
    var r := AfterConstruct(rec);
    if r.children.Listed? then r.children.records else []
  }

  /** The sum of `len(children)` over visited records, as added to a count. */
  function KeptCount(recs: seq<Record>): nat {
    if recs == [] then 0 else KeptCount(recs[..|recs| - 1]) + |Kept(recs[|recs| - 1])|
  }

  // ---------------------------------------------------------------- breadth-first order

  /**
   * The inner skip loop: pop records until one that is not skipped; popping
   * from an exhausted queue is an error.
   */
  ghost function PopVisible(tags: seq<string>, q: seq<Record>): (r: Result<(Record, seq<Record>), CompareError>)
    ensures r.Failure? ==> r.error == QueueExhausted
    ensures r.Success? ==> !Skipped(tags, r.value.0)
    ensures r.Success? ==> RecordSize(r.value.0) + ForestSize(r.value.1) <= ForestSize(q)
  {
    if q == [] then Failure(QueueExhausted)
    else
      ForestSizeFront(q);
      if Skipped(tags, q[0]) then PopVisible(tags, q[1..])
    else Success((q[0], q[1..]))
  }

  /**
   * `PopVisible` drops exactly the skipped records in front of the first
   * visible one, and fails exactly when every record left is skipped.
   */
  lemma {:induction false} PopVisibleDropsSkipped(tags: seq<string>, q: seq<Record>)
    ensures PopVisible(tags, q).Success? ==>
      exists k :: 0 <= k < |q| && PopVisible(tags, q).value == (q[k], q[k + 1..])
        && forall i :: 0 <= i < k ==> Skipped(tags, q[i])
    ensures PopVisible(tags, q).Failure? <==> forall i :: 0 <= i < |q| ==> Skipped(tags, q[i])
    decreases |q|
  {
    if q != [] {
      if Skipped(tags, q[0]) {
        PopVisibleDropsSkipped(tags, q[1..]);
        if PopVisible(tags, q).Success? {
          var k :| 0 <= k < |q[1..]| && PopVisible(tags, q[1..]).value == (q[1..][k], q[1..][k + 1..])
            && forall i :: 0 <= i < k ==> Skipped(tags, q[1..][i]);
          assert q[1..][k + 1..] == q[k + 2..];
          assert forall i :: 0 <= i < k + 1 ==> Skipped(tags, q[i]) by {
            forall i | 0 <= i < k + 1
              ensures Skipped(tags, q[i])
            {
              if i > 0 {
                assert q[i] == q[1..][i - 1];
              }
            }
          }
        } else {
          assert forall i :: 0 <= i < |q| ==> Skipped(tags, q[i]) by {
            forall i | 0 <= i < |q|
              ensures Skipped(tags, q[i])
            {
              if i > 0 {
                assert q[i] == q[1..][i - 1];
              }
            }
          }
        }
      } else {
        assert PopVisible(tags, q).value == (q[0], q[0 + 1..]);
      }
    }
  }

  /**
   * The pruned breadth-first order of a queue of snapshot trees: a skipped
   * record is dropped with its subtree, any other record is visited and its
   * kept children go to the back of the queue.
   */
  ghost function Bfs(tags: seq<string>, q: seq<Record>): (order: seq<Record>)
    ensures |order| <= ForestSize(q)
    ensures q != [] && !Skipped(tags, q[0]) ==> order != [] && order[0] == q[0]
    decreases ForestSize(q)
  {
    if q == [] then []
    else
      ForestSizeFront(q);
      if Skipped(tags, q[0]) then Bfs(tags, q[1..])
      else
        ForestSizeAppend(q[1..], Kept(q[0]));
        [q[0]] + Bfs(tags, q[1..] + Kept(q[0]))
  }

  /** No skipped record is ever visited. */
  lemma {:induction false} BfsVisitsNoSkipped(tags: seq<string>, q: seq<Record>)
    ensures forall k :: 0 <= k < |Bfs(tags, q)| ==> !Skipped(tags, Bfs(tags, q)[k])
    decreases ForestSize(q)
  {
    if q != [] {
      ForestSizeFront(q);
      if Skipped(tags, q[0]) {
        BfsVisitsNoSkipped(tags, q[1..]);
      } else {
        ForestSizeAppend(q[1..], Kept(q[0]));
        BfsVisitsNoSkipped(tags, q[1..] + Kept(q[0]));
      }
    }
  }

  /** Every visited record was queued at the start, or is a kept child of a record visited before it. */
  ghost predicate Reached(q: seq<Record>, order: seq<Record>) {
    forall k :: 0 <= k < |order| ==> order[k] in q || exists i :: 0 <= i < k && order[k] in Kept(order[i])
  }

  /**
   * A skipped record's subtree is pruned: what is visited is reached from the start
   * queue through kept children of visited, hence never skipped, records only.
   */
  lemma {:induction false} BfsPrunesSkipped(tags: seq<string>, q: seq<Record>)
    ensures Reached(q, Bfs(tags, q))
    decreases ForestSize(q)
  {
    if q != [] {
      ForestSizeFront(q);
      if Skipped(tags, q[0]) {
        BfsPrunesSkipped(tags, q[1..]);
        ReachedFromTail(q, Bfs(tags, q[1..]));
      } else {
        var next := q[1..] + Kept(q[0]);
        ForestSizeAppend(q[1..], Kept(q[0]));
        BfsPrunesSkipped(tags, next);
        ReachedStep(q, Bfs(tags, next));
      }
    }
  }

  lemma ReachedFromTail(q: seq<Record>, order: seq<Record>)
    requires q != [] && Reached(q[1..], order)
    ensures Reached(q, order)
  {
    assert forall r :: r in q[1..] ==> r in q;
  }

  /** Visiting the front record and continuing from its queue with the kept children appended. */
  lemma ReachedStep(q: seq<Record>, rest: seq<Record>)
    requires q != [] && Reached(q[1..] + Kept(q[0]), rest)
    ensures Reached(q, [q[0]] + rest)
  {
    var order := [q[0]] + rest;
    forall k | 0 < k < |order|
      ensures order[k] in q || exists i :: 0 <= i < k && order[k] in Kept(order[i])
    {
      assert rest[k - 1] in q[1..] + Kept(q[0]) || exists i :: 0 <= i < k - 1 && rest[k - 1] in Kept(rest[i]);
      ReachedAt(q, rest, k - 1);
    }
  }

  /** The record at position `k` of the continued order is reached in the order with the front record in front. */
  lemma ReachedAt(q: seq<Record>, rest: seq<Record>, k: nat)
    requires q != [] && k < |rest|
    requires rest[k] in q[1..] + Kept(q[0]) || exists i :: 0 <= i < k && rest[k] in Kept(rest[i])
    ensures var order := [q[0]] + rest;
      rest[k] in q || exists i :: 0 <= i < k + 1 && rest[k] in Kept(order[i])
  {
    var order := [q[0]] + rest;
    if rest[k] in q[1..] + Kept(q[0]) {
      if rest[k] !in q[1..] {
        assert rest[k] in Kept(order[0]);
      } else {
        assert rest[k] in q;
      }
    } else {
      var i :| 0 <= i < k && rest[k] in Kept(rest[i]);
      assert rest[i] == order[i + 1];
    }
  }

  /** One round of the skip loop takes the next record of the pruned order. */
  lemma {:induction false} PopVisibleIsBfsStep(tags: seq<string>, q: seq<Record>)
    ensures PopVisible(tags, q).Failure? ==> Bfs(tags, q) == []
    ensures PopVisible(tags, q).Success? ==>
      var (rec, rest) := PopVisible(tags, q).value;
      Bfs(tags, q) == [rec] + Bfs(tags, rest + Kept(rec))
    decreases |q|
  {
    if q != [] && Skipped(tags, q[0]) {
      PopVisibleIsBfsStep(tags, q[1..]);
    }
  }

  // ---------------------------------------------------------------- the walk as written

  /** Whether two records both construct and their nodes pass `CompareNodes`. */
  ghost predicate Matches(onlyStructure: bool, a: Record, b: Record) {
    var na := NodeOf(a, "", false);
    var nb := NodeOf(b, "", false);
    na.Success? && nb.Success? && CompareNodes(onlyStructure, na.value, nb.value)
  }

  ghost predicate AllMatch(onlyStructure: bool, va: seq<Record>, vb: seq<Record>)
    requires |va| == |vb|
  {
    forall k :: 0 <= k < |va| ==> Matches(onlyStructure, va[k], vb[k])
  }

  type Visits = Result<(seq<Record>, seq<Record>), CompareError>

  /** Put the pairs `va`, `vb` in front of those of a later walk. */
  ghost function Prepend(va: seq<Record>, vb: seq<Record>, w: Visits): Visits {
    match w
    case Failure(e) => Failure(e)
    case Success((pa, pb)) => Success((va + pa, vb + pb))
  }

  /**
   * The loop of `Main` as written: while both queues are non-empty, run the
   * skip loop on A then on B, construct A's node then B's, and queue the
   * children each record keeps. The result is the list of visited record
   * pairs, or the error that ends the loop.
   */
  ghost function Walk(tags: seq<string>, qa: seq<Record>, qb: seq<Record>): (w: Visits)
    ensures w.Success? ==> |w.value.0| == |w.value.1| <= ForestSize(qa)
    ensures w.Failure? ==> qa != [] && qb != []
    decreases ForestSize(qa)
  {
    if qa == [] || qb == [] then Success(([], []))
    else
      match PopVisible(tags, qa)
      case Failure(e) => Failure(e)
      case Success((a, ra)) =>
        match PopVisible(tags, qb)
        case Failure(e) => Failure(e)
        case Success((b, rb)) =>
          if NodeOf(a, "", false).Failure? then Failure(Construct(NodeOf(a, "", false).error))
          else if NodeOf(b, "", false).Failure? then Failure(Construct(NodeOf(b, "", false).error))
          else
            ForestSizeAppend(ra, Kept(a));
            Prepend([a], [b], Walk(tags, ra + Kept(a), rb + Kept(b)))
  }

  /** The report `Main` prints for a list of visited pairs. */
  ghost function ReportOf(onlyStructure: bool, va: seq<Record>, vb: seq<Record>): Report
    requires |va| == |vb|
  {
    Report(AllMatch(onlyStructure, va, vb), 1 + KeptCount(va), 1 + KeptCount(vb))
  }

  /**
   * A walk that ends normally visits the two pruned breadth-first orders in
   * lock step: pairs are taken position by position from the front of both,
   * every visited record constructs, and the walk stops when one side's
   * order is used up.
   */
  lemma {:induction false} WalkFollowsBfs(tags: seq<string>, qa: seq<Record>, qb: seq<Record>)
    requires Walk(tags, qa, qb).Success?
    ensures var (pa, pb) := Walk(tags, qa, qb).value;
      |pa| == |pb|
      && pa <= Bfs(tags, qa) && pb <= Bfs(tags, qb)
      && (pa == Bfs(tags, qa) || pb == Bfs(tags, qb))
      && forall k :: 0 <= k < |pa| ==> NodeOf(pa[k], "", false).Success? && NodeOf(pb[k], "", false).Success?
    decreases ForestSize(qa)
  {
    if qa != [] && qb != [] {
      PopVisibleIsBfsStep(tags, qa);
      PopVisibleIsBfsStep(tags, qb);
      var (a, ra) := PopVisible(tags, qa).value;
      var (b, rb) := PopVisible(tags, qb).value;
      ForestSizeAppend(ra, Kept(a));
      var na, nb := ra + Kept(a), rb + Kept(b);
      WalkFollowsBfs(tags, na, nb);
      var (pa, pb) := Walk(tags, na, nb).value;
      LockStepCons(a, b, Bfs(tags, na), Bfs(tags, nb), pa, pb);
    }
  }

  /** Putting one constructible pair in front of both orders and both visit lists keeps them in lock step. */
  lemma LockStepCons(a: Record, b: Record, oa: seq<Record>, ob: seq<Record>, pa: seq<Record>, pb: seq<Record>)
    requires NodeOf(a, "", false).Success? && NodeOf(b, "", false).Success?
    requires |pa| == |pb| && pa <= oa && pb <= ob && (pa == oa || pb == ob)
    requires forall k :: 0 <= k < |pa| ==> NodeOf(pa[k], "", false).Success? && NodeOf(pb[k], "", false).Success?
    ensures [a] + pa <= [a] + oa && [b] + pb <= [b] + ob && ([a] + pa == [a] + oa || [b] + pb == [b] + ob)
    ensures forall k :: 0 <= k < |pa| + 1 ==>
      NodeOf(([a] + pa)[k], "", false).Success? && NodeOf(([b] + pb)[k], "", false).Success?
  {
    forall k | 0 <= k < |pa| + 1
      ensures NodeOf(([a] + pa)[k], "", false).Success? && NodeOf(([b] + pb)[k], "", false).Success?
    {
      if k > 0 {
        assert ([a] + pa)[k] == pa[k - 1] && ([b] + pb)[k] == pb[k - 1];
      }
    }
  }

  lemma WalkStep(tags: seq<string>, qa: seq<Record>, qb: seq<Record>, a: Record, ra: seq<Record>, b: Record, rb: seq<Record>)
    requires qa != [] && qb != []
    requires PopVisible(tags, qa) == Success((a, ra))
    requires PopVisible(tags, qb) == Success((b, rb))
    requires NodeOf(a, "", false).Success? && NodeOf(b, "", false).Success?
    ensures ForestSize(ra + Kept(a)) < ForestSize(qa)
    ensures Walk(tags, qa, qb) == Prepend([a], [b], Walk(tags, ra + Kept(a), rb + Kept(b)))
  {
    ForestSizeAppend(ra, Kept(a));
  }

  /** Once a queue is empty the visits so far are the whole walk. */
  lemma WalkDone(tags: seq<string>, qa0: seq<Record>, qb0: seq<Record>, qa: seq<Record>, qb: seq<Record>,
                 va: seq<Record>, vb: seq<Record>)
    requires qa == [] || qb == []
    requires Walk(tags, qa0, qb0) == Prepend(va, vb, Walk(tags, qa, qb))
    ensures Walk(tags, qa0, qb0) == Success((va, vb))
  {
    assert va + [] == va && vb + [] == vb;
  }

  lemma PrependNothing(w: Visits)
    ensures Prepend([], [], w) == w
  {
    if w.Success? {
      var (pa, pb) := w.value;
      assert [] + pa == pa && [] + pb == pb;
    }
  }

  lemma PrependPrepend(va: seq<Record>, vb: seq<Record>, a: Record, b: Record, w: Visits)
    ensures Prepend(va, vb, Prepend([a], [b], w)) == Prepend(va + [a], vb + [b], w)
  {
    if w.Success? {
      var (pa, pb) := w.value;
      assert va + ([a] + pa) == (va + [a]) + pa;
      assert vb + ([b] + pb) == (vb + [b]) + pb;
    }
  }

  lemma AllMatchStep(onlyStructure: bool, va: seq<Record>, vb: seq<Record>, a: Record, b: Record)
    requires |va| == |vb|
    ensures AllMatch(onlyStructure, va + [a], vb + [b]) <==> AllMatch(onlyStructure, va, vb) && Matches(onlyStructure, a, b)
  {
    var va', vb' := va + [a], vb + [b];
    assert va'[|va|] == a && vb'[|vb|] == b;
    assert forall k :: 0 <= k < |va| ==> va'[k] == va[k] && vb'[k] == vb[k];
  }

  lemma KeptCountStep(va: seq<Record>, a: Record)
    ensures KeptCount(va + [a]) == KeptCount(va) + |Kept(a)|
  {
    assert (va + [a])[..|va + [a]| - 1] == va;
  }

  /** The state of `Main`'s loop: the visits so far, the flag and the two counts. */
  ghost predicate Progress(tags: seq<string>, onlyStructure: bool, domA: Record, domB: Record,
                           qa: seq<Record>, qb: seq<Record>, va: seq<Record>, vb: seq<Record>,
                           matched: bool, aCount: int, bCount: int)
  {
    && Walk(tags, [domA], [domB]) == Prepend(va, vb, Walk(tags, qa, qb))
    && |va| == |vb|
    && (matched <==> AllMatch(onlyStructure, va, vb))
    && aCount == 1 + KeptCount(va)
    && bCount == 1 + KeptCount(vb)
  }

  /** An iteration that stops with an error ends the whole walk with it. */
  lemma ProgressStops(tags: seq<string>, onlyStructure: bool, domA: Record, domB: Record,
                      qa: seq<Record>, qb: seq<Record>, va: seq<Record>, vb: seq<Record>,
                      matched: bool, aCount: int, bCount: int, e: CompareError)
    requires Progress(tags, onlyStructure, domA, domB, qa, qb, va, vb, matched, aCount, bCount)
    requires qa != [] && qb != []
    requires || PopVisible(tags, qa) == Failure(e)
             || (PopVisible(tags, qa).Success? && PopVisible(tags, qb) == Failure(e))
             || (PopVisible(tags, qa).Success? && PopVisible(tags, qb).Success?
                 && e.Construct? && NodeOf(PopVisible(tags, qa).value.0, "", false) == Failure(e.e))
             || (PopVisible(tags, qa).Success? && PopVisible(tags, qb).Success?
                 && NodeOf(PopVisible(tags, qa).value.0, "", false).Success?
                 && e.Construct? && NodeOf(PopVisible(tags, qb).value.0, "", false) == Failure(e.e))
    ensures Walk(tags, [domA], [domB]) == Failure(e)
  {
    assert Walk(tags, qa, qb) == Failure(e);
  }

  /** One iteration of `Main`'s loop keeps its state in step with `Walk`. */
  lemma ProgressStep(tags: seq<string>, onlyStructure: bool, domA: Record, domB: Record,
                     qa: seq<Record>, qb: seq<Record>, va: seq<Record>, vb: seq<Record>,
                     matched: bool, aCount: int, bCount: int,
                     a: Record, ra: seq<Record>, b: Record, rb: seq<Record>, same: bool)
    requires Progress(tags, onlyStructure, domA, domB, qa, qb, va, vb, matched, aCount, bCount)
    requires qa != [] && qb != []
    requires PopVisible(tags, qa) == Success((a, ra))
    requires PopVisible(tags, qb) == Success((b, rb))
    requires NodeOf(a, "", false).Success? && NodeOf(b, "", false).Success?
    requires same == CompareNodes(onlyStructure, NodeOf(a, "", false).value, NodeOf(b, "", false).value)
    ensures ForestSize(ra + Kept(a)) < ForestSize(qa)
    ensures Progress(tags, onlyStructure, domA, domB, ra + Kept(a), rb + Kept(b), va + [a], vb + [b],
                     matched && same, aCount + |Kept(a)|, bCount + |Kept(b)|)
  {
    WalkStep(tags, qa, qb, a, ra, b, rb);
    PrependPrepend(va, vb, a, b, Walk(tags, ra + Kept(a), rb + Kept(b)));
    AllMatchStep(onlyStructure, va, vb, a, b);
    KeptCountStep(va, a);
    KeptCountStep(vb, b);
  }

  /** The inner loop of `Main`: pop records until one that is not skipped. */
  method PopVisibleRecord(tags: seq<string>, q: seq<Record>) returns (r: Result<(Record, seq<Record>), CompareError>)
    requires q != []
    ensures r == PopVisible(tags, q)
  {
    var rec := q[0];
    var rest := q[1..];
    var skip := ShouldSkipNode(tags, rec);
    while skip
      invariant PopVisible(tags, q) == if skip then PopVisible(tags, rest) else Success((rec, rest))
      decreases |rest|, skip
    {
      if |rest| == 0 {
        return Failure(QueueExhausted);
      }
      rec := rest[0];
      rest := rest[1..];
      skip := ShouldSkipNode(tags, rec);
    }
    return Success((rec, rest));
  }

  /**
   * One iteration of `Main`'s loop: take the next visible record of each
   * queue, construct both nodes, compare them, and queue and count the
   * children each keeps. An error here ends the whole walk with it.
   */
  method VisitPair(tags: seq<string>, onlyStructure: bool, ghost domA: Record, ghost domB: Record,
                   qa: seq<Record>, qb: seq<Record>, ghost va: seq<Record>, ghost vb: seq<Record>,
                   matched: bool, aCount: int, bCount: int)
    returns (r: Result<(seq<Record>, seq<Record>, bool, int, int), CompareError>, ghost a: Record, ghost b: Record)
    requires Progress(tags, onlyStructure, domA, domB, qa, qb, va, vb, matched, aCount, bCount)
    requires qa != [] && qb != []
    ensures r.Failure? ==> Walk(tags, [domA], [domB]) == Failure(r.error)
    ensures r.Success? ==> ForestSize(r.value.0) < ForestSize(qa)
    ensures r.Success? ==> Progress(tags, onlyStructure, domA, domB, r.value.0, r.value.1, va + [a], vb + [b],
                                    r.value.2, r.value.3, r.value.4)
  {
    a, b := domA, domB;
    var popA := PopVisibleRecord(tags, qa);
    if popA.Failure? {
      ProgressStops(tags, onlyStructure, domA, domB, qa, qb, va, vb, matched, aCount, bCount, popA.error);
      return Failure(popA.error), a, b;
    }
    var popB := PopVisibleRecord(tags, qb);
    if popB.Failure? {
      ProgressStops(tags, onlyStructure, domA, domB, qa, qb, va, vb, matched, aCount, bCount, popB.error);
      return Failure(popB.error), a, b;
    }
    var nextA, restA := popA.value.0, popA.value.1;
    var nextB, restB := popB.value.0, popB.value.1;
    a, b := nextA, nextB;

    var nodeA, recA := ConstructDOMNodeObj(nextA, "", false);
    if nodeA.Failure? {
      ProgressStops(tags, onlyStructure, domA, domB, qa, qb, va, vb, matched, aCount, bCount, Construct(nodeA.error));
      return Failure(Construct(nodeA.error)), a, b;
    }
    var nodeB, recB := ConstructDOMNodeObj(nextB, "", false);
    if nodeB.Failure? {
      ProgressStops(tags, onlyStructure, domA, domB, qa, qb, va, vb, matched, aCount, bCount, Construct(nodeB.error));
      return Failure(Construct(nodeB.error)), a, b;
    }

    var same := CompareNodes(onlyStructure, nodeA.value, nodeB.value);
    ProgressStep(tags, onlyStructure, domA, domB, qa, qb, va, vb, matched, aCount, bCount, a, restA, b, restB, same);
    var matched' := matched;
    if !same {
      matched' := false;
    }

    var childrenA, childrenB, aCount', bCount' := restA, restB, aCount, bCount;
    if recA.children.Listed? {
      childrenA := childrenA + recA.children.records;
      aCount' := aCount' + |recA.children.records|;
    }
    if recB.children.Listed? {
      childrenB := childrenB + recB.children.records;
      bCount' := bCount' + |recB.children.records|;
    }
    assert childrenA == restA + Kept(a) && childrenB == restB + Kept(b);
    r := Success((childrenA, childrenB, matched', aCount', bCount'));
  }

  /**
   * The loop of `Main`: compares two snapshot trees in lock-step breadth-first
   * order. Its outcome is that of `Walk` on the two roots, and the report
   * holds a flag that is true iff every visited pair matched (it never comes
   * back once cleared) and counts that start at 1 and grow by the children
   * kept by each visited record.
   */
  method CompareTrees(onlyStructure: bool, hdp: bool, domA: Record, domB: Record)
    returns (r: Result<Report, CompareError>)
    ensures var w := Walk(SkipList(hdp), [domA], [domB]);
      && (r.Failure? <==> w.Failure?)
      && (r.Failure? ==> r.error == w.error)
      && (r.Success? ==> |w.value.0| == |w.value.1| && r.value == ReportOf(onlyStructure, w.value.0, w.value.1))
  {
    var tags := SkipList(hdp);
    var matched := true;
    var childrenA, childrenB := [domA], [domB];
    var aCount, bCount := 1, 1;
    ghost var visitedA: seq<Record>, visitedB: seq<Record> := [], [];
    PrependNothing(Walk(tags, childrenA, childrenB));
    while |childrenA| > 0 && |childrenB| > 0
      invariant Progress(tags, onlyStructure, domA, domB, childrenA, childrenB, visitedA, visitedB, matched, aCount, bCount)
      decreases ForestSize(childrenA)
    {
      var step, a, b := VisitPair(tags, onlyStructure, domA, domB, childrenA, childrenB, visitedA, visitedB,
                                  matched, aCount, bCount);
      if step.Failure? {
        return Failure(step.error);
      }
      childrenA, childrenB, matched, aCount, bCount := step.value.0, step.value.1, step.value.2, step.value.3, step.value.4;
      visitedA, visitedB := visitedA + [a], visitedB + [b];
    }
    WalkDone(tags, [domA], [domB], childrenA, childrenB, visitedA, visitedB);
    r := Success(Report(matched, aCount, bCount));
  }

  // ---------------------------------------------------------------- a trailing skipped record

  /**
   * A page whose last record in breadth-first order is skipped: `HTML` with
   * the children `BODY` and a `#comment`.
   */
  function TrailingCommentPage(): Record {
    Record(1, "HTML", "", None, None, Listed([
      Record(2, "BODY", "", Some(1), None, Missing),
      Record(3, "#comment", " footer ", Some(1), None, Missing)]))
  }

  /**
   * The walk pops past the end when the records left on one side are all
   * skipped: comparing the page above with itself ends in `QueueExhausted`
   * (an IndexError) instead of a report. This trace needs the one-argument
   * construction call of the loop repaired, as everywhere in this model.
   */
  lemma SelfComparisonFailsAsWritten()
    ensures Walk(SkipList(false), [TrailingCommentPage()], [TrailingCommentPage()]) == Failure(QueueExhausted)
  {
    var tags := SkipList(false);
    var page := TrailingCommentPage();
    var body, comment := page.children.records[0], page.children.records[1];
    TrailingCommentSkips();
    assert PopVisible(tags, [page]) == Success((page, []));
    assert Kept(page) == [body, comment];
    assert [] + Kept(page) == [body, comment];
    assert PopVisible(tags, [body, comment]) == Success((body, [comment]));
    assert [comment] + Kept(body) == [comment];
    assert PopVisible(tags, [comment]) == Failure(QueueExhausted);
    assert Walk(tags, [comment], [comment]) == Failure(QueueExhausted);
  }

  /**
   * Before any node is constructed, the walk as written already fails when a root
   * record is itself skipped: its skip loop pops the now empty queue.
   */
  lemma SkippedRootFailsAsWritten(tags: seq<string>, root: Record, other: Record)
    requires Skipped(tags, root)
    ensures Walk(tags, [root], [other]) == Failure(QueueExhausted)
  {
    assert [root][1..] == [];
  }

  /** A snapshot whose root record is a comment. */
  function CommentRoot(): Record {
    Record(1, "#comment", " generated ", None, None, Missing)
  }

  /** Comparing a comment-rooted snapshot with any page ends in the IndexError. */
  lemma CommentRootFailsAsWritten(other: Record)
    ensures Walk(SkipList(false), [CommentRoot()], [other]) == Failure(QueueExhausted)
  {
    assert IsLowerStr("#comment");
    SkippedNames(false, CommentRoot());
    SkippedRootFailsAsWritten(SkipList(false), CommentRoot(), other);
  }

  /** Only the comment of that page is on the default skip list. */
  lemma TrailingCommentSkips()
    ensures var page := TrailingCommentPage();
      && !Skipped(SkipList(false), page)
      && !Skipped(SkipList(false), page.children.records[0])
      && Skipped(SkipList(false), page.children.records[1])
  {
    var page := TrailingCommentPage();
    assert Lower("HTML") == "html" && Lower("BODY") == "body";
    assert IsLowerStr("#comment");
    SkippedNames(false, page);
    SkippedNames(false, page.children.records[0]);
    SkippedNames(false, page.children.records[1]);
  }

  /**
   * The walk with the evidently intended end: a side whose remaining records
   * are all skipped is exhausted, and the walk stops there with the pairs
   * visited so far.
   */
  ghost function WalkUntilExhausted(tags: seq<string>, qa: seq<Record>, qb: seq<Record>): Visits
    decreases ForestSize(qa)
  {
    if qa == [] || qb == [] then Success(([], []))
    else
      match PopVisible(tags, qa)
      case Failure(_) => Success(([], []))
      case Success((a, ra)) =>
        match PopVisible(tags, qb)
        case Failure(_) => Success(([], []))
        case Success((b, rb)) =>
          if NodeOf(a, "", false).Failure? then Failure(Construct(NodeOf(a, "", false).error))
          else if NodeOf(b, "", false).Failure? then Failure(Construct(NodeOf(b, "", false).error))
          else
            ForestSizeAppend(ra, Kept(a));
            Prepend([a], [b], WalkUntilExhausted(tags, ra + Kept(a), rb + Kept(b)))
  }

  /**
   * With that end, comparing a tree with itself visits its whole pruned
   * breadth-first order on both sides and every pair matches, whenever each
   * visited record constructs.
   */
  lemma SelfComparisonMatches(tags: seq<string>, onlyStructure: bool, q: seq<Record>)
    requires forall k :: 0 <= k < |Bfs(tags, q)| ==> NodeOf(Bfs(tags, q)[k], "", false).Success?
    ensures WalkUntilExhausted(tags, q, q) == Success((Bfs(tags, q), Bfs(tags, q)))
    ensures AllMatch(onlyStructure, Bfs(tags, q), Bfs(tags, q))
  {
    SelfWalkIsBfs(tags, q);
    SelfPairsMatch(onlyStructure, Bfs(tags, q));
  }

  lemma {:induction false} SelfWalkIsBfs(tags: seq<string>, q: seq<Record>)
    requires forall k :: 0 <= k < |Bfs(tags, q)| ==> NodeOf(Bfs(tags, q)[k], "", false).Success?
    ensures WalkUntilExhausted(tags, q, q) == Success((Bfs(tags, q), Bfs(tags, q)))
    decreases ForestSize(q)
  {
    var bfs := Bfs(tags, q);
    PopVisibleIsBfsStep(tags, q);
    if q != [] && PopVisible(tags, q).Success? {
      var (a, ra) := PopVisible(tags, q).value;
      var next := ra + Kept(a);
      var rest := Bfs(tags, next);
      assert bfs == [a] + rest;
      assert bfs[0] == a;
      forall k | 0 <= k < |rest|
        ensures NodeOf(rest[k], "", false).Success?
      {
        assert rest[k] == bfs[k + 1];
      }
      assert NodeOf(a, "", false).Success?;
      ForestSizeAppend(ra, Kept(a));
      SelfWalkIsBfs(tags, next);
      assert WalkUntilExhausted(tags, q, q) == Prepend([a], [a], WalkUntilExhausted(tags, next, next));
    }
  }

  /** Every record whose node constructs matches itself. */
  lemma SelfPairsMatch(onlyStructure: bool, s: seq<Record>)
    requires forall k :: 0 <= k < |s| ==> NodeOf(s[k], "", false).Success?
    ensures AllMatch(onlyStructure, s, s)
  {
    forall k | 0 <= k < |s|
      ensures Matches(onlyStructure, s[k], s[k])
    {
      var n := NodeOf(s[k], "", false).value;
      CompareNodesProperties(onlyStructure, n, n, n);
    }
  }

  // ---------------------------------------------------------------- AdvanceToNextMatch

  /**
   * `AdvanceToNextMatch`: pop records from the front until one whose node
   * equals the target; that record stays at the front, after construction
   * has deleted a sole `#text` child from it.
   */
  ghost function Advance(target: Node, recs: seq<Record>): (r: Result<seq<Record>, CompareError>)
    ensures r.Success? ==> 1 <= |r.value| <= |recs|
    decreases |recs|
  {
    if recs == [] then Failure(QueueExhausted)
    else
      match NodeOf(recs[0], "", false)
      case Failure(e) => Failure(Construct(e))
      case Success(n) =>
        if NodeNe(n, target) then Advance(target, recs[1..])
        else Success([AfterConstruct(recs[0])] + recs[1..])
  }

  /** The records before position `k` all construct and differ from the target. */
  ghost predicate NoMatchBefore(target: Node, recs: seq<Record>, k: int)
    requires 0 <= k <= |recs|
  {
    forall i :: 0 <= i < k ==> NodeOf(recs[i], "", false).Success? && NodeNe(NodeOf(recs[i], "", false).value, target)
  }

  method AdvanceToNextMatch(target: Node, remaining: seq<Record>) returns (r: Result<seq<Record>, CompareError>)
    ensures r == Advance(target, remaining)
  {
    var rest := remaining;
    while true
      invariant Advance(target, remaining) == Advance(target, rest)
      decreases |rest|
    {
      if |rest| == 0 {
        return Failure(QueueExhausted);
      }
      var node, front := ConstructDOMNodeObj(rest[0], "", false);
      if node.Failure? {
        return Failure(Construct(node.error));
      }
      if !NodeNe(node.value, target) {
        return Success([front] + rest[1..]);
      }
      rest := rest[1..];
    }
  }

  /**
   * A successful advance stops at the first record equal to the target and
   * leaves that record (with a sole text child deleted) followed by the
   * suffix after it; running off the end means no record matched.
   */
  lemma AdvanceStopsAtFirstMatch(target: Node, recs: seq<Record>)
    ensures Advance(target, recs).Success? ==>
      exists k :: 0 <= k < |recs| && NoMatchBefore(target, recs, k)
        && NodeOf(recs[k], "", false).Success? && NodeEq(NodeOf(recs[k], "", false).value, target)
        && Advance(target, recs).value == [AfterConstruct(recs[k])] + recs[k + 1..]
    ensures Advance(target, recs) == Failure(QueueExhausted) <==> NoMatchBefore(target, recs, |recs|)
  {
    AdvanceFindsMatch(target, recs);
    AdvanceExhausted(target, recs);
  }

  lemma {:induction false} AdvanceFindsMatch(target: Node, recs: seq<Record>)
    ensures Advance(target, recs).Success? ==>
      exists k :: 0 <= k < |recs| && NoMatchBefore(target, recs, k)
        && NodeOf(recs[k], "", false).Success? && NodeEq(NodeOf(recs[k], "", false).value, target)
        && Advance(target, recs).value == [AfterConstruct(recs[k])] + recs[k + 1..]
    decreases |recs|
  {
    if recs != [] && Advance(target, recs).Success? {
      var n := NodeOf(recs[0], "", false);
      if NodeNe(n.value, target) {
        var tail := recs[1..];
        AdvanceFindsMatch(target, tail);
        var k :| 0 <= k < |tail| && NoMatchBefore(target, tail, k)
          && NodeOf(tail[k], "", false).Success? && NodeEq(NodeOf(tail[k], "", false).value, target)
          && Advance(target, tail).value == [AfterConstruct(tail[k])] + tail[k + 1..];
        assert tail[k] == recs[k + 1] && tail[k + 1..] == recs[k + 2..];
        NoMatchShift(target, recs, k);
      } else {
        assert Advance(target, recs).value == [AfterConstruct(recs[0])] + recs[0 + 1..];
      }
    }
  }

  lemma {:induction false} AdvanceExhausted(target: Node, recs: seq<Record>)
    ensures Advance(target, recs) == Failure(QueueExhausted) <==> NoMatchBefore(target, recs, |recs|)
    decreases |recs|
  {
    if recs != [] {
      var n := NodeOf(recs[0], "", false);
      if n.Success? && NodeNe(n.value, target) {
        AdvanceExhausted(target, recs[1..]);
        NoMatchShift(target, recs, |recs| - 1);
      } else {
        assert !NoMatchBefore(target, recs, |recs|);
      }
    }
  }

  /** When the first record constructs and differs from the target, no match among the first `k + 1` is no match among the first `k` after it. */
  lemma NoMatchShift(target: Node, recs: seq<Record>, k: nat)
    requires k < |recs|
    requires NodeOf(recs[0], "", false).Success? && NodeNe(NodeOf(recs[0], "", false).value, target)
    ensures NoMatchBefore(target, recs, k + 1) <==> NoMatchBefore(target, recs[1..], k)
  {
    forall i | 0 < i < k + 1
      ensures recs[i] == recs[1..][i - 1]
    {
    }
  }
}
