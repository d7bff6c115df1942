/** The generic XML helpers of ajax.js: element-sibling navigation, the
    element-child test, the root-element lookup and the single-value read
    with a default. */
module NodeHelpers {
  import opened Wrappers
  import opened Dom

  /** True when `ns[j]` is an element and no node of `ns` before it is. */
  predicate FirstElementAt(ns: seq<Node>, j: int)
  {
    0 <= j < |ns| && ns[j].Element? && forall k :: 0 <= k < j ==> !ns[k].Element?
  }

  /** True when some child of `n` is an element (has `nodeType` 1). */
  predicate HasElementChild(n: Node)
  {
    exists k :: 0 <= k < |ChildNodes(n)| && ChildNodes(n)[k].Element?
  }

  /** The scan the helpers share (ajax.js lines 217-221, 227-230 and
      298-301): the position of the first element of `ns` at or after `x`,
      found by testing `nodeType == 1` one node after the other. */
  function FirstElementFrom(ns: seq<Node>, x: nat): (r: Option<nat>)
    ensures r.Some? ==> x <= r.value < |ns| && ns[r.value].Element?
    ensures r.Some? ==> forall k :: x <= k < r.value ==> !ns[k].Element?
    ensures r.None? ==> forall k :: x <= k < |ns| ==> !ns[k].Element?
    decreases |ns| - x
  {
    if x >= |ns| then None
    else if NodeType(ns[x]) == 1 then Some(x)
    else FirstElementFrom(ns, x + 1)
  }

  /** `get_nextsibling(n)`, where `n` is the node at position `i` among
      `siblings` (its parent's children): the nearest later sibling that is
      an element, as a position. A position outside `siblings` stands for a
      `null` node, whose `nextSibling` throws; the handler then yields
      `null`, as it does when the walk runs off the end. */
  function NextElementSibling(siblings: seq<Node>, i: int): (r: Option<nat>)
    ensures r.Some? ==> 0 <= i < r.value < |siblings| && siblings[r.value].Element?
    ensures r.Some? ==> forall k :: i < k < r.value ==> !siblings[k].Element?
    ensures r.None? && 0 <= i < |siblings| ==> forall k :: i < k < |siblings| ==> !siblings[k].Element?
  {
    if !(0 <= i < |siblings|) then None
    else FirstElementFrom(siblings, i + 1)
  }

  /** `HasChildNodes(n)`: despite its name, true only when `n` has an
      element child; text, comment and CDATA children do not count. */
  function HasChildNodes(n: Node): (b: bool)
    ensures b <==> HasElementChild(n)
  {
    FirstElementFrom(ChildNodes(n), 0).Some?
  }

  /** A child is strictly smaller than its parent, so it is never the parent. */
  lemma ChildIsNotParent(n: Node, j: int)
    requires 0 <= j < |ChildNodes(n)|
    ensures ChildNodes(n)[j] != n
  {
    assert ChildNodes(n)[j] in n.children;
  }

  /** `findRootNode(n)`: the first element child of `n`, or `n` itself when
      it has none. */
  function FindRootNode(n: Node): (root: Node)
    ensures root == n <==> !HasElementChild(n)
    ensures root != n ==> exists j :: FirstElementAt(ChildNodes(n), j) && ChildNodes(n)[j] == root
  {
    match FirstElementFrom(ChildNodes(n), 0)
    case None => n
    case Some(j) =>
      ChildIsNotParent(n, j);
      assert FirstElementAt(ChildNodes(n), j);
      ChildNodes(n)[j]
  }

  /** `getXMLNode(doc, tag, default)`: the `nodeValue` of the first child of
      the first element `tag` below `doc`. Every failure on the way (no such
      element, an element without children) is caught and gives the
      default, or `""` when the default is `null`. A first child that is
      itself an element has a `null` value, which is returned as is. */
  function GetXMLNode(doc: Node, tag: string, default: Option<string>): (r: Option<string>)
    ensures var found := ElementsByTagName(doc, tag);
      |found| == 0 ==> r == Some(default.GetOr(""))
    ensures var found := ElementsByTagName(doc, tag);
      |found| > 0 && |ChildNodes(found[0])| == 0 ==> r == Some(default.GetOr(""))
    ensures var found := ElementsByTagName(doc, tag);
      |found| > 0 && |ChildNodes(found[0])| > 0 ==> r == NodeValue(ChildNodes(found[0])[0])
  {
    match FirstByTagName(doc, tag)
    case None => Some(default.GetOr(""))
    case Some(element) =>
      match FirstChild(element)
      case None => Some(default.GetOr(""))
      case Some(child) => NodeValue(child)
  }

  /** The read yields `null` exactly when the value it reaches is that of an
      element or a document, never on a failure path. */
  lemma GetXMLNodeNull(doc: Node, tag: string, default: Option<string>)
    ensures GetXMLNode(doc, tag, default).None? <==>
      var found := ElementsByTagName(doc, tag);
      |found| > 0 && |ChildNodes(found[0])| > 0 &&
      (ChildNodes(found[0])[0].Element? || ChildNodes(found[0])[0].Doc?)
  {
  }
}
