/** The parsed XML document the helpers of ajax.js walk, as an immutable tree,
    with the DOM attributes they read (`nodeName`, `nodeType`, `nodeValue`,
    `childNodes`, `firstChild`) and `getElementsByTagName`. */
module Dom {
  import opened Wrappers

  /** A node of a parsed document. Only documents and elements have
      children; text, comment and CDATA nodes carry their character data. */
  datatype Node =
    | Doc(children: seq<Node>)
    | Element(name: string, children: seq<Node>)
    | Text(data: string)
    | Comment(data: string)
    | CData(data: string)

  /** `childNodes`: the children of a document or element, and empty for
      the character-data nodes. */
  function ChildNodes(n: Node): (cs: seq<Node>)
    ensures n.Doc? || n.Element? ==> cs == n.children
    ensures n.Text? || n.Comment? || n.CData? ==> cs == []
  {
    if n.Doc? || n.Element? then n.children else []
  }

  /** `firstChild`, `None` standing for `null`. */
  function FirstChild(n: Node): (r: Option<Node>)
    ensures r.None? <==> |ChildNodes(n)| == 0
    ensures r.Some? ==> r.value == ChildNodes(n)[0]
  {
    if |ChildNodes(n)| == 0 then None else Some(ChildNodes(n)[0])
  }

  /** `nodeName`: the tag of an element, a fixed `#`-name otherwise, which is
      `#text` exactly for a text node. */
  function NodeName(n: Node): (nm: string)
    ensures n.Element? ==> nm == n.name
    ensures !n.Element? ==> |nm| > 1 && nm[0] == '#'
    ensures !n.Element? ==> (nm == "#text" <==> n.Text?)
  {
    match n
    case Doc(_) => "#document"
    case Element(name, _) => name
    case Text(_) => "#text"
    case Comment(_) => "#comment"
    case CData(_) => "#cdata-section"
  }

  /** `nodeType`, with the DOM's numbering. Type 1 is exactly an element. */
  function NodeType(n: Node): (t: int)
    ensures t == 1 <==> n.Element?
    ensures 1 <= t <= 9
  {
    match n
    case Doc(_) => 9
    case Element(_, _) => 1
    case Text(_) => 3
    case Comment(_) => 8
    case CData(_) => 4
  }

  /** `nodeValue`: the character data of text, comment and CDATA nodes, and
      `null` (`None`) for documents and elements. */
  function NodeValue(n: Node): (v: Option<string>)
    ensures v.None? <==> n.Doc? || n.Element?
    ensures !(n.Doc? || n.Element?) ==> v == Some(n.data)
  {
    match n
    case Doc(_) => None
    case Element(_, _) => None
    case Text(s) => Some(s)
    case Comment(s) => Some(s)
    case CData(s) => Some(s)
  }

  /** True when `n` is an element `getElementsByTagName(tag)` selects: one
      with that tag, or any element for the wildcard `*`. */
  predicate Matches(n: Node, tag: string)
  {
    n.Element? && (tag == "*" || n.name == tag)
  }

  /** The nodes of `ns` and of all their subtrees, in document order. */
  function Preorder(ns: seq<Node>): seq<Node>
    decreases ns
  {
    if |ns| == 0 then []
    else
      var head := ns[0];
      assert head in ns;
      [head] + (if head.Doc? || head.Element? then Preorder(head.children) else []) + Preorder(ns[1..])
  }

  /** The nodes of a list that `getElementsByTagName(tag)` selects, in order. */
  function Selected(ns: seq<Node>, tag: string): (sel: seq<Node>)
    ensures |sel| <= |ns|
    ensures forall k :: 0 <= k < |sel| ==> Matches(sel[k], tag)
  {
    if |ns| == 0 then []
    else (if Matches(ns[0], tag) then [ns[0]] else []) + Selected(ns[1..], tag)
  }

  /** `n.getElementsByTagName(tag)`: the matching descendants of `n`, not `n`
      itself, in document order. */
  function ElementsByTagName(n: Node, tag: string): (found: seq<Node>)
    ensures forall x :: x in found <==> x in Preorder(ChildNodes(n)) && Matches(x, tag)
  {
    SelectedMembers(Preorder(ChildNodes(n)), tag);
    Selected(Preorder(ChildNodes(n)), tag)
  }

  /** A node is selected exactly when it is in the list and matches. */
  lemma {:induction false} SelectedMembers(ns: seq<Node>, tag: string)
    ensures forall x :: x in Selected(ns, tag) <==> x in ns && Matches(x, tag)
    decreases |ns|
  {
    if |ns| > 0 {
      SelectedMembers(ns[1..], tag);
      assert ns == [ns[0]] + ns[1..];
    }
  }

  /** The search `getElementsByTagName(tag)[0]` performs: depth first through
      `ns`, stopping at the first match; `None` is the `undefined` of an empty
      result. */
  function FirstMatch(ns: seq<Node>, tag: string): (r: Option<Node>)
    ensures r.Some? ==> Matches(r.value, tag)
    decreases ns
  {
    if |ns| == 0 then None
    else
      var head := ns[0];
      assert head in ns;
      if Matches(head, tag) then Some(head)
      else
        var inside := if head.Doc? || head.Element? then FirstMatch(head.children, tag) else None;
        if inside.Some? then inside else FirstMatch(ns[1..], tag)
  }

  /** `n.getElementsByTagName(tag)[0]`: the first selected descendant, and
      `None` exactly when nothing is selected. */
  function FirstByTagName(n: Node, tag: string): (r: Option<Node>)
    ensures var sel := ElementsByTagName(n, tag);
      r == if |sel| == 0 then None else Some(sel[0])
  {
    FirstMatchIsFirstSelected(ChildNodes(n), tag);
    FirstMatch(ChildNodes(n), tag)
  }

  /** Selection distributes over concatenation. */
  lemma {:induction false} SelectedAppend(xs: seq<Node>, ys: seq<Node>, tag: string)
    ensures Selected(xs + ys, tag) == Selected(xs, tag) + Selected(ys, tag)
    decreases |xs|
  {
    if |xs| == 0 {
      assert xs + ys == ys;
    } else {
      SelectedAppend(xs[1..], ys, tag);
      assert (xs + ys)[1..] == xs[1..] + ys;
    }
  }

  /** The depth-first search finds the first selected node in document order,
      and nothing exactly when nothing is selected. */
  lemma {:induction false} FirstMatchIsFirstSelected(ns: seq<Node>, tag: string)
    ensures var sel := Selected(Preorder(ns), tag);
      FirstMatch(ns, tag) == if |sel| == 0 then None else Some(sel[0])
    decreases ns
  {
    if |ns| > 0 {
      var head := ns[0];
      assert head in ns;
      if head.Doc? || head.Element? {
        FirstMatchIsFirstSelected(head.children, tag);
      }
      FirstMatchIsFirstSelected(ns[1..], tag);
      var inner := if head.Doc? || head.Element? then Preorder(head.children) else [];
      assert Preorder(ns) == [head] + inner + Preorder(ns[1..]);
      SelectedAppend([head] + inner, Preorder(ns[1..]), tag);
      SelectedAppend([head], inner, tag);
      assert Selected([head], tag) == if Matches(head, tag) then [head] else [];
      if !(head.Doc? || head.Element?) {
        assert inner == [];
      }
    }
  }
}
