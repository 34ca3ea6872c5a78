/**
 * The cases of the repository's unit tests, replayed on the model
 * (dom-compare/find_tree_diff_test.py and dom-compare/DOMNodeTest.py).
 *
 * The tests build nodes with four constructor arguments; here the parent id is -1 and
 * the signature empty, which no comparison reads.
 */
module Scenarios {
  import opened Wrappers
  import opened PyStr
  import opened DomNode
  import opened Lcs
  import opened TreeDiff

  // ---------------------------------------------------------------- node comparison

  /** A `div` with value `value` and the single attribute `abbc`. */
  function Div(id: int, abbc: string): Node {
    NewNode(id, "div", "value", map["abbc" := abbc], -1, "")
  }

  /** Two such `div`s are equal exactly when their `abbc` values are; ids do not matter. */
  lemma DivsMatch(i: int, v: string, j: int, w: string)
    ensures NodesEqual(Unavailable, Div(i, v), Div(j, w)) <==> v == w
  {
    assert IsLowerStr("div");
    var a, b := map["abbc" := v], map["abbc" := w];
    assert ComparedKeys(a, false) == {"abbc"} == ComparedKeys(b, false);
    assert "class" !in a;
  }

  /** The comparison test: a node equals itself, not one of another type or attribute set, and ids are ignored. */
  lemma CompareTest()
    ensures var node := NewNode(1, "div", "value", map[], -1, "");
      var node1 := NewNode(1, "div1", "value", map[], -1, "");
      var node2 := NewNode(2, "div", "value", map["abbc" := "bbcc"], -1, "");
      var node3 := NewNode(3, "div", "value", map["abbc" := "bbcc"], -1, "");
      && NodeEq(node, node) && NodeNe(node, node1) && NodeNe(node, node3) && NodeEq(node2, node3)
  {
    assert IsLowerStr("div") && IsLowerStr("div1");
    var m: map<string, string> := map["abbc" := "bbcc"];
    var empty: map<string, string> := map[];
    assert |m| == 1 && |empty| == 0;
    CompareAttrsReflexive(m, false);
    CompareAttrsReflexive(empty, false);
  }

  /** The construction test: a `TITLE` record with one `#text` child becomes a `title` node carrying the text. */
  lemma ConstructTitleTest(text: string)
    ensures var child := Record(6, "#text", text, Some(5), None, Missing);
      var rec := Record(5, "TITLE", "", Some(4), Some([]), Listed([child]));
      && NodeOf(rec, "", false) == Success(Node(5, "title", text, map[], 4, ""))
      && AfterConstruct(rec) == rec.(children := Missing)
  {
    assert Lower("#text") == "#text";
    assert Lower("TITLE") == "title";
    assert PairsToMap(false, []) == map[];
  }

  // ---------------------------------------------------------------- one level of the diff

  /** The single-node tests: a node aligns with itself, and two different nodes share nothing. */
  lemma SingleNodeTests()
    ensures CommonAndMissing(Matcher(Unavailable), [Div(2, "bbcc")], [Div(2, "bbcc")])
         == ([Div(2, "bbcc")], [Div(2, "bbcc")], [])
    ensures CommonAndMissing(Matcher(Unavailable), [Div(2, "bbcc")], [Div(2, "bbccaa")])
         == ([], [], [Div(2, "bbcc")])
  {
    DiffWithItself(Unavailable, [Div(2, "bbcc")]);
    DivsMatch(2, "bbcc", 2, "bbccaa");
    DiffSingleDifferent(Unavailable, Div(2, "bbcc"), Div(2, "bbccaa"));
  }

  /**
   * The alignment of the extra-nodes case: five correct and five testing siblings of
   * which only the first, second and fourth match, each with its counterpart.
   */
  lemma AlignExtraNodes(eq: (Node, Node) -> bool, xs: seq<Node>, ys: seq<Node>)
    requires |xs| == 5 && |ys| == 5
    requires forall i, j :: 0 <= i < 5 && 0 <= j < 5 ==> (eq(xs[i], ys[j]) <==> (i == 0 && j == 0) || (i == 1 && j == 1) || (i == 3 && j == 3))
    ensures Align(eq, xs, ys, 4, 4) == Alignment([0, 1, 3], [0, 1, 3], [2, 4])
  {
    assert LcsLength(eq, xs, ys, 0, 0) == 1;
    assert LcsLength(eq, xs, ys, 0, 1) == 1;
    assert LcsLength(eq, xs, ys, 0, 2) == 1;
    assert LcsLength(eq, xs, ys, 0, 3) == 1;
    assert LcsLength(eq, xs, ys, 0, 4) == 1;
    assert LcsLength(eq, xs, ys, 1, 0) == 1;
    assert LcsLength(eq, xs, ys, 1, 1) == 2;
    assert LcsLength(eq, xs, ys, 1, 2) == 2;
    assert LcsLength(eq, xs, ys, 1, 3) == 2;
    assert LcsLength(eq, xs, ys, 1, 4) == 2;
    assert LcsLength(eq, xs, ys, 2, 0) == 1;
    assert LcsLength(eq, xs, ys, 2, 1) == 2;
    assert LcsLength(eq, xs, ys, 2, 2) == 2;
    assert LcsLength(eq, xs, ys, 2, 3) == 2;
    assert LcsLength(eq, xs, ys, 2, 4) == 2;
    assert LcsLength(eq, xs, ys, 3, 0) == 1;
    assert LcsLength(eq, xs, ys, 3, 1) == 2;
    assert LcsLength(eq, xs, ys, 3, 2) == 2;
    assert LcsLength(eq, xs, ys, 3, 3) == 3;
    assert LcsLength(eq, xs, ys, 3, 4) == 3;
    assert LcsLength(eq, xs, ys, 4, 0) == 1;
    assert LcsLength(eq, xs, ys, 4, 1) == 2;
    assert LcsLength(eq, xs, ys, 4, 2) == 2;
    assert LcsLength(eq, xs, ys, 4, 3) == 3;
    assert LcsLength(eq, xs, ys, 4, 4) == 3;
    assert Align(eq, xs, ys, 0, 0) == Alignment([0], [0], []);
    assert Align(eq, xs, ys, 1, 1) == Alignment([0, 1], [0, 1], []);
    assert Align(eq, xs, ys, 2, 1) == Alignment([0, 1], [0, 1], [2]);
    assert Align(eq, xs, ys, 2, 2) == Alignment([0, 1], [0, 1], [2]);
    assert Align(eq, xs, ys, 3, 3) == Alignment([0, 1, 3], [0, 1, 3], [2]);
    assert Align(eq, xs, ys, 4, 3) == Alignment([0, 1, 3], [0, 1, 3], [2, 4]);
    assert Align(eq, xs, ys, 4, 4) == Alignment([0, 1, 3], [0, 1, 3], [2, 4]);
  }

  const CorrectValues: seq<string> := ["a", "b", "c", "d", "g"]
  const TestingValues: seq<string> := ["a", "b", "e", "d", "f"]
  const CorrectIds: seq<int> := [1, 2, 3, 4, 5]
  const TestingIds: seq<int> := [1, 2, 3, 4, 4]

  function Divs(ids: seq<int>, values: seq<string>): (r: seq<Node>)
    requires |ids| == |values|
    ensures |r| == |ids| && forall k :: 0 <= k < |r| ==> r[k] == Div(ids[k], values[k])
  {
    seq(|ids|, k requires 0 <= k < |ids| => Div(ids[k], values[k]))
  }

  /** Of the extra-nodes siblings only `a`, `b` and `d` match their counterparts. */
  lemma ExtraNodesMatches(i: int, j: int)
    requires 0 <= i < 5 && 0 <= j < 5
    ensures NodesEqual(Unavailable, Divs(CorrectIds, CorrectValues)[i], Divs(TestingIds, TestingValues)[j])
        <==> (i == 0 && j == 0) || (i == 1 && j == 1) || (i == 3 && j == 3)
  {
    DivsMatch(CorrectIds[i], CorrectValues[i], TestingIds[j], TestingValues[j]);
    assert CorrectValues[i] == TestingValues[j] <==> (i == 0 && j == 0) || (i == 1 && j == 1) || (i == 3 && j == 3) by {
      assert i == 0 || i == 1 || i == 2 || i == 3 || i == 4;
      assert j == 0 || j == 1 || j == 2 || j == 3 || j == 4;
    }
  }

  /** Under any comparison with the extra-nodes match pattern, the level diff keeps the first, second and fourth nodes. */
  lemma ExtraNodesOutcome(eq: (Node, Node) -> bool, xs: seq<Node>, ys: seq<Node>)
    requires |xs| == 5 && |ys| == 5
    requires forall i, j :: 0 <= i < 5 && 0 <= j < 5 ==>
      (eq(xs[i], ys[j]) <==> (i == 0 && j == 0) || (i == 1 && j == 1) || (i == 3 && j == 3))
    ensures CommonAndMissing(eq, xs, ys) == ([xs[0], xs[1], xs[3]], [ys[0], ys[1], ys[3]], [xs[2], xs[4]])
  {
    AlignExtraNodes(eq, xs, ys);
    assert Pick(xs, [0, 1, 3]) == [xs[0], xs[1], xs[3]];
    assert Pick(ys, [0, 1, 3]) == [ys[0], ys[1], ys[3]];
    assert Pick(xs, [2, 4]) == [xs[2], xs[4]];
  }

  /**
   * The extra-nodes test: of `a b c d g` against `a b e d f` the common nodes are
   * `a b d`, and `c` and `g` are missing.
   */
  lemma ExtraNodesTest()
    ensures var xs, ys := Divs(CorrectIds, CorrectValues), Divs(TestingIds, TestingValues);
      CommonAndMissing(Matcher(Unavailable), xs, ys) == ([xs[0], xs[1], xs[3]], [ys[0], ys[1], ys[3]], [xs[2], xs[4]])
  {
    var xs, ys := Divs(CorrectIds, CorrectValues), Divs(TestingIds, TestingValues);
    var eq := Matcher(Unavailable);
    forall i, j | 0 <= i < 5 && 0 <= j < 5
      ensures eq(xs[i], ys[j]) <==> (i == 0 && j == 0) || (i == 1 && j == 1) || (i == 3 && j == 3)
    {
      ExtraNodesMatches(i, j);
    }
    ExtraNodesOutcome(eq, xs, ys);
  }

  /**
   * The alignment of the shifted-cards case: the third to fifth correct siblings match
   * the fourth to sixth testing ones, and nothing else matches.
   */
  lemma AlignShiftedCards(eq: (Node, Node) -> bool, xs: seq<Node>, ys: seq<Node>)
    requires |xs| == 6 && |ys| == 6
    requires forall i, j :: 0 <= i < 6 && 0 <= j < 6 ==> (eq(xs[i], ys[j]) <==> (i == 2 && j == 3) || (i == 3 && j == 4) || (i == 4 && j == 5))
    ensures Align(eq, xs, ys, 5, 5) == Alignment([2, 3, 4], [3, 4, 5], [0, 1, 5])
  {
    assert LcsLength(eq, xs, ys, 0, 0) == 0;
    assert LcsLength(eq, xs, ys, 0, 1) == 0;
    assert LcsLength(eq, xs, ys, 0, 2) == 0;
    assert LcsLength(eq, xs, ys, 0, 3) == 0;
    assert LcsLength(eq, xs, ys, 0, 4) == 0;
    assert LcsLength(eq, xs, ys, 0, 5) == 0;
    assert LcsLength(eq, xs, ys, 1, 0) == 0;
    assert LcsLength(eq, xs, ys, 1, 1) == 0;
    assert LcsLength(eq, xs, ys, 1, 2) == 0;
    assert LcsLength(eq, xs, ys, 1, 3) == 0;
    assert LcsLength(eq, xs, ys, 1, 4) == 0;
    assert LcsLength(eq, xs, ys, 1, 5) == 0;
    assert LcsLength(eq, xs, ys, 2, 0) == 0;
    assert LcsLength(eq, xs, ys, 2, 1) == 0;
    assert LcsLength(eq, xs, ys, 2, 2) == 0;
    assert LcsLength(eq, xs, ys, 2, 3) == 1;
    assert LcsLength(eq, xs, ys, 2, 4) == 1;
    assert LcsLength(eq, xs, ys, 2, 5) == 1;
    assert LcsLength(eq, xs, ys, 3, 0) == 0;
    assert LcsLength(eq, xs, ys, 3, 1) == 0;
    assert LcsLength(eq, xs, ys, 3, 2) == 0;
    assert LcsLength(eq, xs, ys, 3, 3) == 1;
    assert LcsLength(eq, xs, ys, 3, 4) == 2;
    assert LcsLength(eq, xs, ys, 3, 5) == 2;
    assert LcsLength(eq, xs, ys, 4, 0) == 0;
    assert LcsLength(eq, xs, ys, 4, 1) == 0;
    assert LcsLength(eq, xs, ys, 4, 2) == 0;
    assert LcsLength(eq, xs, ys, 4, 3) == 1;
    assert LcsLength(eq, xs, ys, 4, 4) == 2;
    assert LcsLength(eq, xs, ys, 4, 5) == 3;
    assert LcsLength(eq, xs, ys, 5, 0) == 0;
    assert LcsLength(eq, xs, ys, 5, 1) == 0;
    assert LcsLength(eq, xs, ys, 5, 2) == 0;
    assert LcsLength(eq, xs, ys, 5, 3) == 1;
    assert LcsLength(eq, xs, ys, 5, 4) == 2;
    assert LcsLength(eq, xs, ys, 5, 5) == 3;
    assert Align(eq, xs, ys, 0, -1) == Alignment([], [], [0]);
    assert Align(eq, xs, ys, 1, -1) == Alignment([], [], [0, 1]);
    assert Align(eq, xs, ys, 1, 0) == Alignment([], [], [0, 1]);
    assert Align(eq, xs, ys, 1, 1) == Alignment([], [], [0, 1]);
    assert Align(eq, xs, ys, 1, 2) == Alignment([], [], [0, 1]);
    assert Align(eq, xs, ys, 2, 3) == Alignment([2], [3], [0, 1]);
    assert Align(eq, xs, ys, 3, 4) == Alignment([2, 3], [3, 4], [0, 1]);
    assert Align(eq, xs, ys, 4, 5) == Alignment([2, 3, 4], [3, 4, 5], [0, 1]);
    assert Align(eq, xs, ys, 5, 5) == Alignment([2, 3, 4], [3, 4, 5], [0, 1, 5]);
  }

  /**
   * The shifted-cards test: when only the cards numbered 32 to 34 of the two lists match,
   * the common correct nodes are exactly those three, and the first, second and last
   * correct cards are missing.
   */
  lemma ShiftedCardsOutcome(eq: (Node, Node) -> bool, xs: seq<Node>, ys: seq<Node>)
    requires |xs| == 6 && |ys| == 6
    requires forall i, j :: 0 <= i < 6 && 0 <= j < 6 ==>
      (eq(xs[i], ys[j]) <==> (i == 2 && j == 3) || (i == 3 && j == 4) || (i == 4 && j == 5))
    ensures CommonAndMissing(eq, xs, ys) == ([xs[2], xs[3], xs[4]], [ys[3], ys[4], ys[5]], [xs[0], xs[1], xs[5]])
  {
    AlignShiftedCards(eq, xs, ys);
    assert Pick(xs, [2, 3, 4]) == [xs[2], xs[3], xs[4]];
    assert Pick(ys, [3, 4, 5]) == [ys[3], ys[4], ys[5]];
    assert Pick(xs, [0, 1, 5]) == [xs[0], xs[1], xs[5]];
  }
}
