/**
 * A DOM node of a browser snapshot and its two equivalences (dom-compare/DOMNode.py).
 *
 * A snapshot arrives as nested JSON records; `Record` is one such record, with an
 * `Option` for each key that may be absent. `Node` is what the comparator builds from
 * a record: its type folded to lower case, the text of a sole `#text` child hoisted
 * into `value`, and the flat attribute list turned into a map.
 */
module DomNode {
  import opened Wrappers
  import opened PyStr

  /** One node of the snapshot payload: nodeId, nodeName, nodeValue, parentId, attributes, children. */
  datatype Record = Record(
    nodeId: int,
    nodeName: string,
    nodeValue: string,
    parentId: Option<int>,
    attributes: Option<seq<string>>,
    children: ChildList)

  /** The optional `children` key of a record: absent, or the list of child records. */
  datatype ChildList = Missing | Listed(records: seq<Record>)

  /** The `IndexError` raised when a flat attribute list has an odd length. */
  datatype DomError = OddAttributeList

  datatype Node = Node(
    id: int,
    nodeType: string,
    value: string,
    attributes: map<string, string>,
    parentId: int,
    signature: string)

  /** The constructor: the type is folded to lower case, every other field is kept. */
  function NewNode(nodeId: int, nodeType: string, value: string, attributes: map<string, string>,
                   parentId: int, signature: string): (n: Node)
    ensures IsLowerStr(n.nodeType) && |n.nodeType| == |nodeType|
    ensures IsLowerStr(nodeType) ==> n.nodeType == nodeType
    ensures n.id == nodeId && n.value == value && n.attributes == attributes
    ensures n.parentId == parentId && n.signature == signature
  {
    Node(nodeId, Lower(nodeType), value, attributes, parentId, signature)
  }

  // ---------------------------------------------------------------- visibility

  /** Types that count as visible whatever their style says. */
  const Exemptions: seq<string> := ["#document", "html", "head", "body"]

  /** The declarations, written without blanks, that can hide a node. */
  const HidingDeclarations: seq<string> := ["display:none", "visibility:hidden", "height:0px", "width:0px"]

  /**
   * `IsVisible`: exempt types and nodes without a style are visible; otherwise the style,
   * with its blanks removed, must not hide the node.
   */
  function IsVisible(n: Node): (visible: bool)
    ensures n.nodeType in Exemptions || "style" !in n.attributes ==> visible
    ensures !visible ==> exists decl :: decl in HidingDeclarations && Contains(RemoveSpaces(n.attributes["style"]), decl)
  {
    if n.nodeType in Exemptions then true
    else if "style" !in n.attributes then true
    else
      var style := RemoveSpaces(n.attributes["style"]);
      !(|| Contains(style, "display:none")
        || Contains(style, "visibility:hidden")
        || (Contains(style, "height:0px") && Contains(style, "width:0px")))
  }

  /** A style that spells out `display:none` or `visibility:hidden` hides a non-exempt node, whatever blanks surround it. */
  lemma HiddenByStyle(n: Node, decl: string)
    requires decl == "display:none" || decl == "visibility:hidden"
    requires n.nodeType !in Exemptions
    requires "style" in n.attributes && Contains(n.attributes["style"], decl)
    ensures !IsVisible(n)
  {
    ContainsAfterRemoveSpaces(n.attributes["style"], decl);
  }

  /**
   * The size rule needs both declarations: a style spelling out `height:0px` and `width:0px`
   * hides a non-exempt node, while a blank-stripped style with only one of them and neither
   * `display:none` nor `visibility:hidden` leaves it visible.
   */
  lemma HiddenBySize(n: Node)
    requires n.nodeType !in Exemptions && "style" in n.attributes
    ensures Contains(n.attributes["style"], "height:0px") && Contains(n.attributes["style"], "width:0px") ==> !IsVisible(n)
    ensures var style := RemoveSpaces(n.attributes["style"]);
      (!Contains(style, "display:none") && !Contains(style, "visibility:hidden")
       && Contains(style, "height:0px") != Contains(style, "width:0px")) ==> IsVisible(n)
  {
    var raw := n.attributes["style"];
    if Contains(raw, "height:0px") && Contains(raw, "width:0px") {
      ContainsAfterRemoveSpaces(raw, "height:0px");
      ContainsAfterRemoveSpaces(raw, "width:0px");
    }
  }

  /** A blank inside a declaration, as in `display: none`, does not hide it from the check. */
  lemma BlankInsideDeclarationHides(n: Node, a: string, b: string)
    requires n.nodeType !in Exemptions
    requires a + b == "display:none" || a + b == "visibility:hidden"
    requires ' ' !in a && ' ' !in b
    requires "style" in n.attributes && n.attributes["style"] == a + ([' '] + b)
    ensures !IsVisible(n)
  {
    RemoveSpacesJoinsPieces(a, b);
    assert a + b <= RemoveSpaces(n.attributes["style"])[0..];
  }

  // ---------------------------------------------------------------- comparison

  const StructureOnlyKeys: set<string> := {"class", "id"}

  /** The keys `CompareAttrs` looks at: all of them, or only `class` and `id` in structure mode. */
  function ComparedKeys(attrs: map<string, string>, structureOnly: bool): (ks: set<string>)
    ensures ks <= attrs.Keys
    ensures !structureOnly ==> ks == attrs.Keys
    ensures structureOnly ==> ks == attrs.Keys * StructureOnlyKeys
  {
    set k | k in attrs && (!structureOnly || k in StructureOnlyKeys)
  }

  /** Two class values match when their token lists have the same length and the same tokens. */
  predicate ClassesMatch(x: string, y: string) {
    var xs, ys := Split(x), Split(y);
    |xs| == |ys| && (set w | w in xs) == (set w | w in ys)
  }

  /**
   * `CompareAttrs`: equal attribute counts (even in structure mode), equal compared key
   * sets, equal values on every compared key but `class`, and matching classes whenever
   * both sides carry one.
   */
  function CompareAttrs(a: map<string, string>, b: map<string, string>, structureOnly: bool): (same: bool)
    ensures same ==> |a| == |b| && ComparedKeys(a, structureOnly) == ComparedKeys(b, structureOnly)
    ensures same && structureOnly ==> ("id" in a <==> "id" in b) && ("class" in a <==> "class" in b)
    ensures same && "id" in a && (structureOnly || "id" in b) ==> "id" in b && a["id"] == b["id"]
  {
    && |a| == |b|
    && ComparedKeys(a, structureOnly) == ComparedKeys(b, structureOnly)
    && (forall k :: k in ComparedKeys(a, structureOnly) && k != "class" ==> a[k] == b[k])
    && ("class" in a && "class" in b ==> ClassesMatch(a["class"], b["class"]))
  }

  /** `CompareStructure`: the same type, and the same `class`/`id` attributes. */
  function CompareStructure(a: Node, b: Node): (same: bool)
    ensures same ==> a.nodeType == b.nodeType && |a.attributes| == |b.attributes|
  {
    a.nodeType == b.nodeType && CompareAttrs(a.attributes, b.attributes, true)
  }

  /** `__eq__`: the same type, the same value and the same attributes; ids, parents and signatures are ignored. */
  function NodeEq(a: Node, b: Node): (same: bool)
    ensures same ==> a.nodeType == b.nodeType && a.value == b.value && a.attributes.Keys == b.attributes.Keys
    ensures same ==> CompareStructure(a, b)
  {
    a.nodeType == b.nodeType && a.value == b.value && CompareAttrs(a.attributes, b.attributes, false)
  }

  /** `__ne__`. */
  function NodeNe(a: Node, b: Node): (differ: bool)
    ensures differ ==> a.nodeType != b.nodeType || a.value != b.value || !CompareAttrs(a.attributes, b.attributes, false)
    ensures a.(id := b.id, parentId := b.parentId, signature := b.signature) == b ==> !differ
  {
    !NodeEq(a, b)
  }

  lemma CompareAttrsReflexive(a: map<string, string>, structureOnly: bool)
    ensures CompareAttrs(a, a, structureOnly)
  {
  }

  lemma CompareAttrsSymmetric(a: map<string, string>, b: map<string, string>, structureOnly: bool)
    ensures CompareAttrs(a, b, structureOnly) <==> CompareAttrs(b, a, structureOnly)
  {
  }

  lemma CompareAttrsTransitive(a: map<string, string>, b: map<string, string>, c: map<string, string>,
                               structureOnly: bool)
    requires CompareAttrs(a, b, structureOnly) && CompareAttrs(b, c, structureOnly)
    ensures CompareAttrs(a, c, structureOnly)
  {
    var ks := ComparedKeys(a, structureOnly);
    forall k | k in ks && k != "class"
      ensures a[k] == c[k]
    {
      assert k in ComparedKeys(b, structureOnly);
    }
    if "class" in a && "class" in c {
      assert "class" in b by {
        if structureOnly {
          assert "class" in ComparedKeys(a, structureOnly);
        } else {
          assert "class" in ComparedKeys(b, structureOnly);
        }
      }
    }
  }

  /** `__eq__` is an equivalence relation. */
  lemma NodeEqIsEquivalence(a: Node, b: Node, c: Node)
    ensures NodeEq(a, a)
    ensures NodeEq(a, b) <==> NodeEq(b, a)
    ensures NodeEq(a, b) && NodeEq(b, c) ==> NodeEq(a, c)
  {
    CompareAttrsReflexive(a.attributes, false);
    CompareAttrsSymmetric(a.attributes, b.attributes, false);
    if NodeEq(a, b) && NodeEq(b, c) {
      CompareAttrsTransitive(a.attributes, b.attributes, c.attributes, false);
    }
  }

  /** Structural comparison is an equivalence relation too. */
  lemma CompareStructureIsEquivalence(a: Node, b: Node, c: Node)
    ensures CompareStructure(a, a)
    ensures CompareStructure(a, b) <==> CompareStructure(b, a)
    ensures CompareStructure(a, b) && CompareStructure(b, c) ==> CompareStructure(a, c)
  {
    CompareAttrsReflexive(a.attributes, true);
    CompareAttrsSymmetric(a.attributes, b.attributes, true);
    if CompareStructure(a, b) && CompareStructure(b, c) {
      CompareAttrsTransitive(a.attributes, b.attributes, c.attributes, true);
    }
  }

  /** Full equality implies structural equality. */
  lemma FullImpliesStructure(a: Node, b: Node)
    requires NodeEq(a, b)
    ensures CompareStructure(a, b)
  {
    assert ComparedKeys(a.attributes, true) == ComparedKeys(a.attributes, false) * StructureOnlyKeys;
    assert ComparedKeys(b.attributes, true) == ComparedKeys(b.attributes, false) * StructureOnlyKeys;
  }

  /** Structural comparison still compares the number of attributes. */
  lemma StructureComparesAttributeCount(a: Node, b: Node)
    requires CompareStructure(a, b)
    ensures |a.attributes| == |b.attributes|
  {
  }

  /** Class values with the same tokens, counted with multiplicity, match whatever blanks separate them. */
  lemma ClassTokensMatch(x: string, y: string)
    requires multiset(Split(x)) == multiset(Split(y))
    ensures ClassesMatch(x, y)
  {
    var xs, ys := Split(x), Split(y);
    assert |xs| == |multiset(xs)| == |multiset(ys)| == |ys|;
    assert forall w :: w in xs <==> w in multiset(xs);
    assert forall w :: w in ys <==> w in multiset(ys);
  }

  /** Reordering the class tokens never breaks equality. */
  lemma {:induction false} ClassOrderInvariance(ws1: seq<string>, ws2: seq<string>)
    requires forall k :: 0 <= k < |ws1| ==> IsWord(ws1[k])
    requires multiset(ws1) == multiset(ws2)
    ensures ClassesMatch(Join(ws1), Join(ws2))
  {
    assert forall w :: w in ws2 ==> w in multiset(ws2);
    assert forall k :: 0 <= k < |ws2| ==> IsWord(ws2[k]) by {
      forall k | 0 <= k < |ws2|
        ensures IsWord(ws2[k])
      {
        assert ws2[k] in multiset(ws1);
      }
    }
    SplitJoin(ws1);
    SplitJoin(ws2);
    assert |ws1| == |multiset(ws1)| == |multiset(ws2)| == |ws2|;
    assert forall w :: w in ws1 <==> w in multiset(ws1);
    assert forall w :: w in ws2 <==> w in multiset(ws2);
  }

  /** Two nodes that differ only in the order of their class tokens are equal. */
  lemma ReorderedClassesEqual(n: Node, ws1: seq<string>, ws2: seq<string>)
    requires forall k :: 0 <= k < |ws1| ==> IsWord(ws1[k])
    requires multiset(ws1) == multiset(ws2)
    ensures NodeEq(n.(attributes := n.attributes["class" := Join(ws1)]),
                   n.(attributes := n.attributes["class" := Join(ws2)]))
  {
    ClassOrderInvariance(ws1, ws2);
    var a := n.attributes["class" := Join(ws1)];
    var b := n.attributes["class" := Join(ws2)];
    assert a.Keys == b.Keys;
    assert |a| == |a.Keys| == |b.Keys| == |b|;
  }

  /** Types differing only in case give nodes that compare equal; ids, parents and signatures do not matter. */
  lemma TypeCaseIgnored(t1: string, t2: string, value: string, attrs: map<string, string>,
                        id1: int, id2: int, p1: int, p2: int, s1: string, s2: string)
    requires Lower(t1) == Lower(t2)
    ensures NodeEq(NewNode(id1, t1, value, attrs, p1, s1), NewNode(id2, t2, value, attrs, p2, s2))
  {
    CompareAttrsReflexive(attrs, false);
  }

  // ---------------------------------------------------------------- attribute lists

  /** The keys kept when only the attributes of interest are wanted. */
  const InterestingAttrs: seq<string> := ["id", "class", "src", "href"]

  predicate Keeps(forHdp: bool, key: string) {
    !forHdp || key in InterestingAttrs
  }

  /** Key and value of pair `p` of a flat `[k1, v1, k2, v2, ...]` list. */
  function KeyAt(s: seq<string>, p: nat): string
    requires 2 * p + 1 < |s|
  {
    s[2 * p]
  }

  function ValAt(s: seq<string>, p: nat): string
    requires 2 * p + 1 < |s|
  {
    s[2 * p + 1]
  }

  /** The map the pairs of an even-length flat list describe, later pairs overriding earlier ones. */
  function PairsToMap(forHdp: bool, s: seq<string>): (m: map<string, string>)
    requires |s| % 2 == 0
    ensures forall k :: k in m ==> Keeps(forHdp, k)
    decreases |s|
  {
    if s == [] then map[]
    else
      var prev := PairsToMap(forHdp, s[..|s| - 2]);
      if Keeps(forHdp, s[|s| - 2]) then prev[s[|s| - 2] := s[|s| - 1]] else prev
  }

  /** `SerializeAttributes`: an odd-length list fails on its last key; otherwise the map of its pairs. */
  method SerializeAttributes(attributes: seq<string>, forHdp: bool) returns (r: Result<map<string, string>, DomError>)
    ensures r.Failure? <==> |attributes| % 2 == 1
    ensures r.Success? ==> r.value == PairsToMap(forHdp, attributes)
  {
    var attrs: map<string, string> := map[];
    var i := 0;
    while i < |attributes|
      invariant 0 <= i <= |attributes| && i % 2 == 0
      invariant attrs == PairsToMap(forHdp, attributes[..i])
    {
      var key := attributes[i];
      if i + 1 >= |attributes| {
        return Failure(OddAttributeList);
      }
      var val := attributes[i + 1];
      assert attributes[..i + 2][..i] == attributes[..i];
      i := i + 2;
      if forHdp && key !in InterestingAttrs {
        continue;
      }
      attrs := attrs[key := val];
    }
    assert attributes[..i] == attributes;
    return Success(attrs);
  }

  /** A key is in the map iff some pair names it (and it is kept). */
  lemma {:induction false} PairsToMapKeys(forHdp: bool, s: seq<string>, key: string)
    requires |s| % 2 == 0
    ensures key in PairsToMap(forHdp, s) <==>
            Keeps(forHdp, key) && exists p :: 0 <= p < |s| / 2 && KeyAt(s, p) == key
    decreases |s|
  {
    if s != [] {
      var init := s[..|s| - 2];
      PairsToMapKeys(forHdp, init, key);
      assert forall p :: 0 <= p < |init| / 2 ==> KeyAt(init, p) == KeyAt(s, p);
      if key in PairsToMap(forHdp, s) && key !in PairsToMap(forHdp, init) {
        assert KeyAt(s, |s| / 2 - 1) == key;
      }
      if Keeps(forHdp, key) && key !in PairsToMap(forHdp, init) {
        assert forall p :: 0 <= p < |s| / 2 - 1 ==> KeyAt(s, p) != key;
      }
    }
  }

  /** The value of a key is the value of the last pair that names it. */
  lemma {:induction false} PairsToMapLastWins(forHdp: bool, s: seq<string>, p: nat)
    requires |s| % 2 == 0 && p < |s| / 2
    requires Keeps(forHdp, KeyAt(s, p))
    requires forall q :: p < q < |s| / 2 ==> KeyAt(s, q) != KeyAt(s, p)
    ensures KeyAt(s, p) in PairsToMap(forHdp, s)
    ensures PairsToMap(forHdp, s)[KeyAt(s, p)] == ValAt(s, p)
    decreases |s|
  {
    if p < |s| / 2 - 1 {
      var init := s[..|s| - 2];
      assert KeyAt(init, p) == KeyAt(s, p) && ValAt(init, p) == ValAt(s, p);
      assert KeyAt(s, |s| / 2 - 1) != KeyAt(s, p);
      assert forall q :: p < q < |init| / 2 ==> KeyAt(init, q) == KeyAt(s, q);
      PairsToMapLastWins(forHdp, init, p);
    }
  }

  /** With the filter on, the map is the unfiltered one restricted to id, class, src and href. */
  lemma {:induction false} PairsToMapHdp(s: seq<string>)
    requires |s| % 2 == 0
    ensures PairsToMap(true, s) ==
            map k | k in PairsToMap(false, s) && k in InterestingAttrs :: PairsToMap(false, s)[k]
    decreases |s|
  {
    if s != [] {
      PairsToMapHdp(s[..|s| - 2]);
    }
  }

  // ---------------------------------------------------------------- serialisation

  /** `order` lists every key of `m` exactly once, as iterating a dict does. */
  predicate IsKeyOrder(m: map<string, string>, order: seq<string>) {
    && (forall t :: 0 <= t < |order| ==> order[t] in m)
    && (forall k :: k in m ==> k in order)
    && (forall a, b :: 0 <= a < b < |order| ==> order[a] != order[b])
  }

  /** The flat list written for `m` when its keys are visited in `order`. */
  function Flatten(m: map<string, string>, order: seq<string>): (s: seq<string>)
    requires forall t :: 0 <= t < |order| ==> order[t] in m
    ensures |s| == 2 * |order|
    ensures forall t :: 0 <= t < |order| ==> KeyAt(s, t) == order[t] && ValAt(s, t) == m[order[t]]
  {
    if order == [] then []
    else
      var k := order[|order| - 1];
      Flatten(m, order[..|order| - 1]) + [k, m[k]]
  }

  /**
   * `Serialize`: the node as a snapshot record with an empty child list. `order` is
   * the order in which the attribute dict yields its keys.
   */
  method Serialize(n: Node, order: seq<string>) returns (rec: Record)
    requires IsKeyOrder(n.attributes, order)
    ensures rec == Record(n.id, n.nodeType, n.value, Some(n.parentId),
                          Some(Flatten(n.attributes, order)), Listed([]))
  {
    var attrs: seq<string> := [];
    for t := 0 to |order|
      invariant attrs == Flatten(n.attributes, order[..t])
    {
      assert order[..t + 1][..t] == order[..t];
      attrs := attrs + [order[t]];
      attrs := attrs + [n.attributes[order[t]]];
    }
    assert order[..|order|] == order;
    rec := Record(n.id, n.nodeType, n.value, Some(n.parentId), Some(attrs), Listed([]));
  }

  /** Re-reading a flattened map without the filter gives the same map, for every key order. */
  lemma {:induction false} FlattenRoundTrip(m: map<string, string>, order: seq<string>)
    requires IsKeyOrder(m, order)
    ensures PairsToMap(false, Flatten(m, order)) == m
  {
    FlattenRestrict(m, order);
  }

  lemma {:induction false} FlattenRestrict(m: map<string, string>, order: seq<string>)
    requires forall t :: 0 <= t < |order| ==> order[t] in m
    ensures PairsToMap(false, Flatten(m, order)) == map k | k in m && k in order :: m[k]
  {
    if order != [] {
      var init := order[..|order| - 1];
      var s := Flatten(m, order);
      assert s[..|s| - 2] == Flatten(m, init);
      FlattenRestrict(m, init);
      assert order == init + [order[|order| - 1]];
    }
  }

  // ---------------------------------------------------------------- construction

  /** The record has exactly one child, and that child is a `#text` node (in any case). */
  predicate HasSoleTextChild(rec: Record) {
    rec.children.Listed? && |rec.children.records| == 1 && Lower(rec.children.records[0].nodeName) == "#text"
  }

  /** The record after construction: a sole text child is deleted, as it now lives in `value`. */
  function AfterConstruct(rec: Record): (r: Record)
    ensures HasSoleTextChild(rec) ==> r.children == Missing
    ensures !HasSoleTextChild(rec) ==> r == rec
    ensures r.children.Listed? ==> !HasSoleTextChild(rec) && r.children == rec.children
    ensures r.(children := Missing) == rec.(children := Missing)
  {
    if HasSoleTextChild(rec) then rec.(children := Missing) else rec
  }

  /** The node `ConstructDOMNodeObj` builds from a record, or the error it raises. */
  function NodeOf(rec: Record, signature: string, forHdp: bool): (r: Result<Node, DomError>)
    ensures r.Failure? <==> rec.attributes.Some? && |rec.attributes.value| % 2 == 1
    ensures r.Success? ==> r.value.id == rec.nodeId && r.value.signature == signature
  {
    if rec.attributes.Some? && |rec.attributes.value| % 2 == 1 then Failure(OddAttributeList)
    else
      var attrs := if rec.attributes.Some? then PairsToMap(forHdp, rec.attributes.value) else map[];
      var value := if HasSoleTextChild(rec) then rec.children.records[0].nodeValue else "";
      var parentId := if rec.parentId.Some? then rec.parentId.value else -1;
      Success(NewNode(rec.nodeId, rec.nodeName, value, attrs, parentId, signature))
  }

  /**
   * The fields of a constructed node: the text of a sole text child becomes the value and
   * any other record has an empty value; the parent id is the record's, or -1 without one;
   * the attributes are the pairs of the list, or none without one; the type is the
   * lower-cased name.
   */
  lemma NodeOfFields(rec: Record, signature: string, forHdp: bool)
    requires NodeOf(rec, signature, forHdp).Success?
    ensures var n := NodeOf(rec, signature, forHdp).value;
      && (HasSoleTextChild(rec) ==> n.value == rec.children.records[0].nodeValue)
      && (!HasSoleTextChild(rec) ==> n.value == "")
      && (n.value != "" ==> HasSoleTextChild(rec))
      && (rec.parentId.Some? ==> n.parentId == rec.parentId.value)
      && (rec.parentId.None? ==> n.parentId == -1)
      && (rec.attributes.Some? ==> n.attributes == PairsToMap(forHdp, rec.attributes.value))
      && (rec.attributes.None? ==> n.attributes == map[])
      && n.nodeType == Lower(rec.nodeName) && IsLowerStr(n.nodeType) && n.id == rec.nodeId
  {
  }

  /**
   * `ConstructDOMNodeObj`: builds the node and, when the text of a sole `#text` child
   * has been hoisted into `value`, deletes the record's children.
   */
  method ConstructDOMNodeObj(rec: Record, signature: string, forHdp: bool)
    returns (node: Result<Node, DomError>, updated: Record)
    ensures node == NodeOf(rec, signature, forHdp)
    ensures updated == if node.Success? then AfterConstruct(rec) else rec
  {
    var attrs: map<string, string> := map[];
    if rec.attributes.Some? {
      var r := SerializeAttributes(rec.attributes.value, forHdp);
      if r.Failure? {
        return Failure(OddAttributeList), rec;
      }
      attrs := r.value;
    }
    var value := "";
    updated := rec;
    if rec.children.Listed? && |rec.children.records| == 1 && Lower(rec.children.records[0].nodeName) == "#text" {
      value := rec.children.records[0].nodeValue;
      updated := rec.(children := Missing);
    }
    var parentId := if rec.parentId.Some? then rec.parentId.value else -1;
    node := Success(NewNode(rec.nodeId, rec.nodeName, value, attrs, parentId, signature));
  }

  /**
   * Serialising a node and constructing a node from the result keeps id, type, attributes,
   * parent and signature but loses the value: the serialised record has no children, so
   * nothing is hoisted.
   */
  lemma SerializeRoundTrip(n: Node, order: seq<string>)
    requires IsKeyOrder(n.attributes, order) && IsLowerStr(n.nodeType)
    ensures var rec := Record(n.id, n.nodeType, n.value, Some(n.parentId),
                              Some(Flatten(n.attributes, order)), Listed([]));
      && NodeOf(rec, n.signature, false) == Success(n.(value := ""))
      && (NodeEq(NodeOf(rec, n.signature, false).value, n) <==> n.value == "")
  {
    FlattenRoundTrip(n.attributes, order);
    CompareAttrsReflexive(n.attributes, false);
  }
}
