/** `_getXMLResultAsArray`: the conversion of an XML result into key/value
    pairs, one per child of a start node. */
module Converter {
  import opened Wrappers
  import opened Dom

  /** One `set(key, value)` call on the result array; `None` is a `null`
      value. */
  datatype Entry = Entry(key: string, value: Option<string>)

  /** The one failure the conversion does not catch: asking a node without
      `getElementsByTagName` (a text, comment or CDATA node) for a named
      start node raises a `TypeError`. */
  datatype Fault = NotSearchable

  /** True when a node offers `getElementsByTagName`. */
  predicate Searchable(n: Node)
  {
    n.Doc? || n.Element?
  }

  /** True when the loop records a child: it is not a text node, and it has
      a first child, since reading `firstChild.nodeValue` of a childless node
      throws and the handler drops the pair. Only a document or an element
      with children qualifies, and an element only when its tag is not
      `#text`. */
  function Recorded(child: Node): (b: bool)
    ensures b ==> Searchable(child)
    ensures child.Doc? ==> (b <==> |child.children| > 0)
    ensures child.Element? ==> (b <==> child.name != "#text" && |child.children| > 0)
  {
    NodeName(child) != "#text" && |ChildNodes(child)| > 0
  }

  /** The pair a recorded child gives: its name, and its first child's value. */
  function EntryOf(child: Node): Entry
    requires Recorded(child)
  {
    Entry(NodeName(child), NodeValue(ChildNodes(child)[0]))
  }

  /** The pairs the loop over `children` records, in order. */
  function Entries(children: seq<Node>): (es: seq<Entry>)
    ensures |es| <= |children|
  {
    if |children| == 0 then []
    else if Recorded(children[0]) then [EntryOf(children[0])] + Entries(children[1..])
    else Entries(children[1..])
  }

  /** Every recorded child gives its pair. */
  lemma {:induction false} EntriesComplete(children: seq<Node>)
    ensures forall j :: 0 <= j < |children| && Recorded(children[j]) ==> EntryOf(children[j]) in Entries(children)
    decreases |children|
  {
    if |children| > 0 {
      var tail := children[1..];
      EntriesComplete(tail);
      assert forall j :: 1 <= j < |children| ==> children[j] == tail[j - 1];
    }
  }

  /** Every pair comes from a recorded child. */
  lemma {:induction false} EntriesSound(children: seq<Node>)
    ensures forall e :: e in Entries(children) ==>
      exists j :: 0 <= j < |children| && Recorded(children[j]) && EntryOf(children[j]) == e
    decreases |children|
  {
    if |children| > 0 {
      var tail := children[1..];
      EntriesSound(tail);
      assert forall j :: 0 <= j < |tail| ==> tail[j] == children[j + 1];
    }
  }

  /** No child is lost exactly when every child is recorded. */
  lemma {:induction false} EntriesLossless(children: seq<Node>)
    ensures |Entries(children)| == |children| <==> forall j :: 0 <= j < |children| ==> Recorded(children[j])
    decreases |children|
  {
    if |children| > 0 {
      var tail := children[1..];
      EntriesLossless(tail);
      assert forall j :: 1 <= j < |children| ==> children[j] == tail[j - 1];
    }
  }

  /** `_getXMLResultAsArray(doc, nodeName)`. Without a name the children of
      `doc` itself are converted; with one, those of the first element of
      that name below `doc`, and nothing when there is none. */
  function XmlResultAsArray(doc: Node, nodeName: Option<string>): (r: Result<seq<Entry>, Fault>)
    ensures r.Failure? <==> nodeName.Some? && !Searchable(doc)
    ensures nodeName.None? ==> r == Success(Entries(ChildNodes(doc)))
    ensures nodeName.Some? && Searchable(doc) ==>
      var found := ElementsByTagName(doc, nodeName.value);
      r == Success(if |found| == 0 then [] else Entries(ChildNodes(found[0])))
  {
    if nodeName.None? then Success(Entries(ChildNodes(doc)))
    else if !Searchable(doc) then Failure(NotSearchable)
    else
      match FirstByTagName(doc, nodeName.value)
      case None => Success([])
      case Some(start) => Success(Entries(ChildNodes(start)))
  }

  /** The pairs of consecutive runs of children come out in the same order. */
  lemma {:induction false} EntriesAppend(xs: seq<Node>, ys: seq<Node>)
    ensures Entries(xs + ys) == Entries(xs) + Entries(ys)
    decreases |xs|
  {
    if |xs| == 0 {
      assert xs + ys == ys;
    } else {
      var zs := xs + ys;
      assert zs[0] == xs[0];
      assert zs[1..] == xs[1..] + ys;
      EntriesAppend(xs[1..], ys);
      var head := if Recorded(xs[0]) then [EntryOf(xs[0])] else [];
      assert Entries(zs) == head + Entries(zs[1..]);
      assert Entries(xs) == head + Entries(xs[1..]);
      assert head + (Entries(xs[1..]) + Entries(ys)) == (head + Entries(xs[1..])) + Entries(ys);
    }
  }

  /** A child with its grandchildren cut down to the first, itself emptied:
      everything the conversion of its parent can read. */
  function Pruned(child: Node): (p: Node)
    ensures NodeName(p) == NodeName(child)
    ensures |ChildNodes(p)| == if |ChildNodes(child)| == 0 then 0 else 1
  {
    match child
    case Doc(cs) => Doc(if |cs| == 0 then [] else [Emptied(cs[0])])
    case Element(name, cs) => Element(name, if |cs| == 0 then [] else [Emptied(cs[0])])
    case _ => child
  }

  /** A node without its children. */
  function Emptied(n: Node): (e: Node)
    ensures NodeValue(e) == NodeValue(n) && |ChildNodes(e)| == 0
  {
    match n
    case Doc(_) => Doc([])
    case Element(name, _) => Element(name, [])
    case _ => n
  }

  /** Every child of a list, pruned. */
  function PrunedAll(children: seq<Node>): (ps: seq<Node>)
    ensures |ps| == |children|
    ensures forall j :: 0 <= j < |children| ==> ps[j] == Pruned(children[j])
  {
    if |children| == 0 then [] else [Pruned(children[0])] + PrunedAll(children[1..])
  }

  /** The conversion is shallow: it reads only each child's name and its
      first child's value, so pruning every child leaves the result alone. */
  lemma {:induction false} EntriesShallow(children: seq<Node>)
    ensures Entries(PrunedAll(children)) == Entries(children)
    decreases |children|
  {
    if |children| > 0 {
      EntriesShallow(children[1..]);
      var ps := PrunedAll(children);
      assert ps[1..] == PrunedAll(children[1..]);
      assert Recorded(ps[0]) <==> Recorded(children[0]);
    }
  }

  /** Reading the pairs into a map with `set`, a later key overwriting an
      earlier one. */
  function ToMap(es: seq<Entry>): (m: map<string, Option<string>>)
    ensures |m| <= |es|
    ensures |m| == 0 <==> |es| == 0
  {
    if |es| == 0 then map[]
    else ToMap(es[..|es| - 1])[es[|es| - 1].key := es[|es| - 1].value]
  }

  /** The map holds exactly the keys of the pairs. */
  lemma {:induction false} ToMapKeys(es: seq<Entry>)
    ensures forall k :: k in ToMap(es) <==> exists i :: 0 <= i < |es| && es[i].key == k
    decreases |es|
  {
    if |es| > 0 {
      var front := es[..|es| - 1];
      ToMapKeys(front);
      assert forall i :: 0 <= i < |front| ==> front[i] == es[i];
    }
  }

  /** A key holds the value of its last pair. */
  lemma {:induction false} ToMapLastWins(es: seq<Entry>, i: int)
    requires 0 <= i < |es|
    requires forall j :: i < j < |es| ==> es[j].key != es[i].key
    ensures es[i].key in ToMap(es) && ToMap(es)[es[i].key] == es[i].value
    decreases |es|
  {
    if i < |es| - 1 {
      var front := es[..|es| - 1];
      assert front[i] == es[i];
      ToMapLastWins(front, i);
    }
  }

  /** True for the nodes a document may hold besides its root element:
      character data and comments, none of which the conversion records. */
  predicate Around(n: Node)
  {
    n.Text? || n.Comment?
  }

  /** Converting a whole document without a start name does not reach the
      fields: it gives the single pair of the root element, whose value is
      that of the root's first child (`null` when that child is an element). */
  lemma {:induction false} DocumentYieldsRoot(before: seq<Node>, root: Node, after: seq<Node>)
    requires forall k :: 0 <= k < |before| ==> Around(before[k])
    requires forall k :: 0 <= k < |after| ==> Around(after[k])
    requires root.Element? && root.name != "#text" && |root.children| > 0
    ensures XmlResultAsArray(Doc(before + [root] + after), None)
      == Success([Entry(root.name, NodeValue(root.children[0]))])
  {
    EntriesAppend(before + [root], after);
    EntriesAppend(before, [root]);
    NoneRecorded(before);
    NoneRecorded(after);
    assert Recorded(root);
    assert [root][1..] == [];
    assert Entries([root]) == [EntryOf(root)];
    var cs := before + [root] + after;
    assert Entries(cs) == [EntryOf(root)];
    assert ChildNodes(Doc(cs)) == cs;
  }

  /** A document whose root element is empty, such as `<r/>`, converts to
      nothing: the root's `firstChild` is `null`, so its pair is dropped. */
  lemma {:induction false} EmptyRootYieldsNothing(before: seq<Node>, name: string, after: seq<Node>)
    requires forall k :: 0 <= k < |before| ==> Around(before[k])
    requires forall k :: 0 <= k < |after| ==> Around(after[k])
    ensures XmlResultAsArray(Doc(before + [Element(name, [])] + after), None) == Success([])
  {
    var root := Element(name, []);
    EntriesAppend(before + [root], after);
    EntriesAppend(before, [root]);
    NoneRecorded(before);
    NoneRecorded(after);
    assert !Recorded(root);
    assert [root][1..] == [];
    assert Entries([root]) == [];
    var cs := before + [root] + after;
    assert Entries(cs) == [];
    assert ChildNodes(Doc(cs)) == cs;
  }

  /** A run of text and comment nodes records nothing. */
  lemma {:induction false} NoneRecorded(ns: seq<Node>)
    requires forall k :: 0 <= k < |ns| ==> Around(ns[k])
    ensures Entries(ns) == []
    decreases |ns|
  {
    if |ns| > 0 {
      assert Around(ns[0]);
      NoneRecorded(ns[1..]);
    }
  }

  /** `<r><a>1</a><b>2</b></r>` read from its document gives the single
      pair `r`, with a `null` value, and not the fields `a` and `b`. */
  lemma SampleDocument()
    ensures XmlResultAsArray(Doc([Element("r", [Element("a", [Text("1")]), Element("b", [Text("2")])])]), None)
      == Success([Entry("r", None)])
  {
    assert "r"[0] != "#text"[0];
    var root := Element("r", [Element("a", [Text("1")]), Element("b", [Text("2")])]);
    DocumentYieldsRoot([], root, []);
    assert [] + [root] + [] == [root];
  }

  /** The same record read from its root element gives the fields. */
  lemma SampleRoot()
    ensures XmlResultAsArray(Element("r", [Element("a", [Text("1")]), Element("b", [Text("2")])]), None)
      == Success([Entry("a", Some("1")), Entry("b", Some("2"))])
  {
    assert "a"[0] != "#text"[0] && "b"[0] != "#text"[0];
    var a := Element("a", [Text("1")]);
    var b := Element("b", [Text("2")]);
    assert [a, b][1..] == [b];
    assert [b][1..] == [];
    assert Entries([b]) == [Entry("b", Some("2"))];
    assert Entries([a, b]) == [Entry("a", Some("1"))] + Entries([b]);
    assert ChildNodes(Element("r", [a, b])) == [a, b];
    assert XmlResultAsArray(Element("r", [a, b]), None) == Success(Entries([a, b]));
    assert [Entry("a", Some("1"))] + [Entry("b", Some("2"))] == [Entry("a", Some("1")), Entry("b", Some("2"))];
  }

  /** With a start name, the first element of that name is converted. */
  lemma SampleNamed()
    ensures XmlResultAsArray(Doc([Element("r", [Element("x", [Element("a", [Text("1")])])])]), Some("x"))
      == Success([Entry("a", Some("1"))])
  {
    assert "a"[0] != "#text"[0] && "x"[0] == 'x';
    var x := Element("x", [Element("a", [Text("1")])]);
    var r := Element("r", [x]);
    assert "r"[0] != "x"[0];
    assert !Matches(r, "x") && Matches(x, "x");
    assert FirstMatch([x], "x") == Some(x);
    assert FirstByTagName(Doc([r]), "x") == Some(x);
    var a := Element("a", [Text("1")]);
    assert [a][1..] == [];
    assert Entries([a]) == [Entry("a", Some("1"))];
  }
}
