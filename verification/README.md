# The AJAX helpers of the clapi web client, in Dafny

`src/main/webapp/clapi/scripts/core/ajax.js` holds three pieces of pure logic
that this project models and proves properties of:

- **Query strings.** `GetURLParameter` looks up one argument of the page
  location. `GetURL` rewrites a URL so that it ends with a fresh cache-busting
  `RANDOMISER` argument (module `Query`). Both are built on JavaScript's
  `String.split` (module `Strings`).
- **XML node helpers.** These are `get_nextsibling`, `HasChildNodes`,
  `findRootNode` and `getXMLNode` (module `NodeHelpers`). They work over a
  parsed document, modelled as an immutable tree with the DOM attributes the
  code reads (module `Dom`).
- **Result conversion.** `_getXMLResultAsArray` turns the children of a start
  node into key/value pairs (module `Converter`).

JavaScript's `undefined` and `null` are the `None` of an `Option`. The host
inputs become parameters:
- the page location `document.location.href` is the `href` string;
- `Math.random()` is the text `r` that is appended.

The result array (`MantaArray`) is modelled as the ordered sequence of its
`set(key, value)` calls (`Converter.Entry`).

Quirks of the code are kept as written:
- Text after a second `?` is lost.
- Of `a=b=c`, only `a=b` is read.
- A matching argument without `=` looks up as `undefined`, and `GetURL` writes
  it back as `key=undefined`.
- The `&` delimiter of `GetURL` is guarded by the loop index, not by whether
  something was written already. So a leading `RANDOMISER` argument leaves a
  stray `&` (`p?RANDOMISER=1&a=2` becomes `p?&a=2&RANDOMISER=r`).
- `HasChildNodes` is true only for an element child.
- `getXMLNode` returns `null`, not the default, when the first child it reaches
  is an element.

## What the converter starts from

The comment above `_getXMLResultAsArray` (ajax.js lines 97-105) says it
converts the child nodes of the fragment it is given, or, when a name is
passed, the child nodes of the first node with that name. The code does
exactly that, which has a consequence for a whole document:
- Without a start name, the start node is the argument itself (ajax.js line
  108).
- A document has one element child, its root. So a document whose root
  element has a child yields a single pair, keyed by the root tag.
- That pair's value is the `nodeValue` of the root's first child, which is
  `null` when the child is an element.
- An empty root such as `<r/>` yields no pair at all. Its `firstChild` is
  `null`, so reading its `nodeValue` throws (ajax.js line 120), and the empty
  handler drops the pair.

So `<r><a>1</a><b>2</b></r>` read from its document gives the pair `r` with a
`null` value. The pairs `a = 1` and `b = 2` come only from the root element,
or from the document with the start name `r`.
`Converter.DocumentYieldsRoot` and `Converter.SampleDocument` state the first
case; `Converter.SampleRoot` states the second. `Converter.EmptyRootYieldsNothing`
states the empty root.

## What the rewritten URL carries

A URL rewritten by `GetURL` carries exactly one `RANDOMISER` argument. The other
arguments are kept in order (`Query.GetURLSingleRandomiser`,
`Query.ParamsOfGetURL`), with three exceptions:
- a leading `RANDOMISER` leaves an empty first segment (the stray `&` above);
- valueless arguments come back as `key=undefined`;
- an argument with a second `=` is cut before it (`Query.RewrittenArgument`).

## Model

| member | source | states |
|---|---|---|
| Strings.Split | src/main/webapp/clapi/scripts/core/ajax.js:13 | `split` on one character: at least one part, no part holds the separator, and joining the parts with it gives the input back; there is one part exactly when the separator is absent |
| Strings.SplitJoin | src/main/webapp/clapi/scripts/core/ajax.js:36 | splitting the join of separator-free parts gives those parts back |
| Strings.SplitConcat | src/main/webapp/clapi/scripts/core/ajax.js:30 | splitting around a separator splits each side independently |
| Query.QueryArgs | src/main/webapp/clapi/scripts/core/ajax.js:13 | the arguments are the `&`-separated pieces of the text between the first `?` and the next `?` or the end: none holds `?` or `&`, and the location begins with the base, `?` and the pieces joined by `&` |
| Query.ParseParam | src/main/webapp/clapi/scripts/core/ajax.js:18-21 | the key is the text before the argument's first `=`; the value is the text from there to the next `=` or the end, so the argument begins with `key=value` followed by its end or a further `=`. The value is `undefined` exactly when the argument has no `=`, and then the key is the whole argument |
| Query.ParseEmit | src/main/webapp/clapi/scripts/core/ajax.js:39 | reading back a written `key=value` (or bare key) gives the same parameter |
| Query.FindFrom | src/main/webapp/clapi/scripts/core/ajax.js:16-23 | the scan stops at the first argument whose key matches, and finds nothing only when no later argument matches |
| Query.GetURLParameter | src/main/webapp/clapi/scripts/core/ajax.js:7-26 | `""` without `?`; otherwise the value of the first parameter with that key among the arguments between the first and second `?`, `""` when there is none. That value is the part of the argument after its first `=` and up to the next `=` |
| Query.ValueOfFirst | src/main/webapp/clapi/scripts/core/ajax.js:19-21 | the lookup gives the value of the first parameter with the key, `undefined` included |
| Query.ValueOfAbsent | src/main/webapp/clapi/scripts/core/ajax.js:25 | the lookup of a missing key gives `""` |
| Query.GetURLParameterOfQuery | src/main/webapp/clapi/scripts/core/ajax.js:9-25 | for any location `base?query` or `base?query?rest`, the lookup reads exactly the parameters written into `query` |
| Query.LookupExample | src/main/webapp/clapi/scripts/core/ajax.js:7-26 | `b` in `p?a=1&b=2` is `2` |
| Query.RenderParam | src/main/webapp/clapi/scripts/core/ajax.js:44 | a parameter with no `=` in its key or value is written so that it reads back with the same key and a defined value, the text `undefined` standing in for a missing one |
| Query.RewrittenArgument | src/main/webapp/clapi/scripts/core/ajax.js:39-44 | an argument read and written back keeps the part before its second `=`: a prefix of the argument holding exactly one `=`, followed by the argument's end or a further `=`, so `k=v=w` becomes `k=v`; an argument without `=` becomes `arg=undefined` |
| Query.SecondEqualsExample | src/main/webapp/clapi/scripts/core/ajax.js:39-44 | `k=v=w` is written back as `k=v` |
| Query.OptsLoop | src/main/webapp/clapi/scripts/core/ajax.js:37-45 | the loop only appends: the text built so far is a prefix of what it returns |
| Query.GetURL | src/main/webapp/clapi/scripts/core/ajax.js:28-54 | the rewritten URL always holds a `?` and always ends with `RANDOMISER=r` |
| Query.Drop | src/main/webapp/clapi/scripts/core/ajax.js:41 | no kept parameter is a `RANDOMISER`, and no more are kept than were given |
| Query.DropNone | src/main/webapp/clapi/scripts/core/ajax.js:37-45 | a list without a `RANDOMISER` is kept whole |
| Query.DropAppend | src/main/webapp/clapi/scripts/core/ajax.js:37-45 | dropping works argument by argument, so the kept arguments keep their relative order |
| Query.OptsLoopIsKeptOpts | src/main/webapp/clapi/scripts/core/ajax.js:37-45 | the loop writes the kept arguments as `key=value` joined by `&`, behind an empty segment when the first argument was a `RANDOMISER` |
| Query.LeadingRandomiserExample | src/main/webapp/clapi/scripts/core/ajax.js:41-42 | `RANDOMISER=1&a=2` is rebuilt as `&a=2` |
| Query.GetURLShape | src/main/webapp/clapi/scripts/core/ajax.js:28-54 | without `?` the result is `url?RANDOMISER=r`; otherwise it is the text before the first `?`, `?`, the kept arguments and `&RANDOMISER=r` |
| Query.GetURLOfQuery | src/main/webapp/clapi/scripts/core/ajax.js:30-49 | for any URL `base?query` or `base?query?rest`, the rewrite is `base?` + kept arguments of `query` + `&RANDOMISER=r`; `rest` is lost |
| Query.RendersReadBack | src/main/webapp/clapi/scripts/core/ajax.js:44 | each kept argument is written so that it reads back with the same key and a defined value, `undefined` standing in for a missing one |
| Query.ParamsOfGetURL | src/main/webapp/clapi/scripts/core/ajax.js:28-54 | the rewritten URL's parameters are the empty leading one (if any), the kept parameters with defined values in order, then the new randomiser |
| Query.GetURLSingleRandomiser | src/main/webapp/clapi/scripts/core/ajax.js:41-52 | the rewritten URL has exactly one `RANDOMISER` parameter, as its last, with the new value |
| Query.GetURLRandomiserFound | src/main/webapp/clapi/scripts/core/ajax.js:47-52 | looking up `RANDOMISER` in the rewritten URL gives the new value |
| Query.GetURLKeepsOtherParameters | src/main/webapp/clapi/scripts/core/ajax.js:37-44 | every other non-empty key looks up in the rewritten URL as in the original, with `undefined` turned into its text |
| Dom.ChildNodes | src/main/webapp/clapi/scripts/core/ajax.js:115 | `childNodes` lists a document's or element's children, and is empty for text, comment and CDATA nodes |
| Dom.FirstChild | src/main/webapp/clapi/scripts/core/ajax.js:120 | `firstChild` is the first of `childNodes`, and `null` exactly when there are none |
| Dom.NodeType | src/main/webapp/clapi/scripts/core/ajax.js:218 | `nodeType` is 1 exactly for an element |
| Dom.NodeValue | src/main/webapp/clapi/scripts/core/ajax.js:239 | `nodeValue` is `null` exactly for documents and elements, and the node's character data for text, comment and CDATA nodes |
| Dom.NodeName | src/main/webapp/clapi/scripts/core/ajax.js:118-120 | `nodeName` is the tag of an element; any other node has a name starting with `#`, which is `#text` exactly for a text node |
| Dom.ElementsByTagName | src/main/webapp/clapi/scripts/core/ajax.js:109 | a node is selected exactly when it lies below the start node and is an element with the tag, or any element for `*` |
| Dom.FirstByTagName | src/main/webapp/clapi/scripts/core/ajax.js:239 | `getElementsByTagName(tag)[0]` is the first selected node in document order, and `undefined` exactly when nothing is selected |
| NodeHelpers.FirstElementFrom | src/main/webapp/clapi/scripts/core/ajax.js:217-221 | the scan stops at the first element at or after its start, every node it skips is not an element, and it finds nothing only when no element remains |
| NodeHelpers.NextElementSibling | src/main/webapp/clapi/scripts/core/ajax.js:214-224 | the nearest later sibling that is an element; every sibling skipped is not one; `null` when no later element exists or the node is `null` |
| NodeHelpers.HasChildNodes | src/main/webapp/clapi/scripts/core/ajax.js:226-233 | true exactly when some child is an element |
| NodeHelpers.FindRootNode | src/main/webapp/clapi/scripts/core/ajax.js:297-305 | the node itself exactly when it has no element child, otherwise its first element child |
| NodeHelpers.GetXMLNode | src/main/webapp/clapi/scripts/core/ajax.js:235-246 | the first child's `nodeValue` of the first descendant with the tag; the default (or `""` for a `null` default) when either is missing |
| NodeHelpers.GetXMLNodeNull | src/main/webapp/clapi/scripts/core/ajax.js:237-240 | the result is `null` exactly when the first child reached is an element or document |
| Converter.Recorded | src/main/webapp/clapi/scripts/core/ajax.js:118-120 | only a document or element with children gives a pair, and an element only when its tag is not `#text` |
| Converter.Entries | src/main/webapp/clapi/scripts/core/ajax.js:115-121 | at most one pair per child |
| Converter.EntriesComplete | src/main/webapp/clapi/scripts/core/ajax.js:115-121 | every non-text child with a first child gives its `(nodeName, firstChild.nodeValue)` pair |
| Converter.EntriesSound | src/main/webapp/clapi/scripts/core/ajax.js:117-120 | every pair comes from a non-text child with a first child, as that child's name and first child's value |
| Converter.EntriesLossless | src/main/webapp/clapi/scripts/core/ajax.js:115-121 | no child is lost exactly when every child is a non-text node with a first child |
| Converter.EntriesAppend | src/main/webapp/clapi/scripts/core/ajax.js:115 | pairs come out in child order |
| Converter.EntriesShallow | src/main/webapp/clapi/scripts/core/ajax.js:117-120 | only a child's name and its first child's value are read; grandchildren are never visited |
| Converter.XmlResultAsArray | src/main/webapp/clapi/scripts/core/ajax.js:106-124 | without a name the node's own children are converted; with one, those of the first descendant of that name, and nothing when there is none; a `TypeError` only when a name is asked of a text, comment or CDATA node |
| Converter.DocumentYieldsRoot | src/main/webapp/clapi/scripts/core/ajax.js:108-120 | a document converted without a name gives the single pair of its root element |
| Converter.EmptyRootYieldsNothing | src/main/webapp/clapi/scripts/core/ajax.js:115-121 | a document whose root element has no children, such as `<r/>`, converted without a name gives no pairs |
| Converter.SampleDocument | src/main/webapp/clapi/scripts/core/ajax.js:106-124 | `<r><a>1</a><b>2</b></r>` from its document gives the single pair `r` with a `null` value |
| Converter.SampleRoot | src/main/webapp/clapi/scripts/core/ajax.js:106-124 | the same record from its root element gives `a = 1`, `b = 2` |
| Converter.SampleNamed | src/main/webapp/clapi/scripts/core/ajax.js:108-121 | `<r><x><a>1</a></x></r>` with start name `x` gives `a = 1` |
| Converter.ToMap | src/main/webapp/clapi/scripts/core/ajax.js:120 | the map holds at most one key per pair, and is empty exactly when there are no pairs |
| Converter.ToMapKeys | src/main/webapp/clapi/scripts/core/ajax.js:120 | read as a map, the pairs give exactly their keys |
| Converter.ToMapLastWins | src/main/webapp/clapi/scripts/core/ajax.js:120 | read as a map, each key holds the value of its last pair |

## Left out

- `sisAJAXConnector` (ajax.js lines 248-275) is left out. It probes the host for a transport object through ActiveX and `XMLHttpRequest`, which is environment I/O.
- `sisXMLDocument` (ajax.js lines 277-295) is left out. It wraps the host's XML parsers, so the model takes an already-parsed `Dom.Node` tree.
- `_getNowAsArray` (ajax.js lines 134-143) is left out. It always makes a blocking GET of `GetURL(_url)`, parses the response with the host's parser, and hands the document to the converter.
- `_getNowAsText` and `_getNowAsXML` (ajax.js lines 155-175 and 187-207) are left out. They are blocking HTTP calls. Each switches on the method name: `'post'` or `'POST'` sends the post data, `'get'` or `'GET'` sends nothing, and any other name falls out of the switch and returns `undefined`.
- `_getResultAsXML` and `_getResultAsArray` (ajax.js lines 78-95) are left out. They parse text with the host's parser, and the second then calls the converter. The second also names `SISXMLDocument`, a name that differs in case from the `sisXMLDocument` that is defined.
- `Math.random()` is not modelled: its number is the parameter `r`. The lemmas about the rewritten URL ask `r` to hold no `?`, `&` or `=`, which the text of a number never does.
- The page location is not read from `document.location`; it is the `href` parameter.
- `MantaArray` is not part of this model. `Converter.ToMap` and its lemmas assume that its `set` overwrites an earlier key; no other member depends on that.
- `null` arguments (a `null` node or location) are not modelled, except the `null` node of `get_nextsibling`, which is a position outside the sibling list.
- JavaScript's loose `==` between a key and a non-string name is not modelled: names are strings.
- Query.GetURLKeepsOtherParameters: excludes the empty key. A leading `RANDOMISER` argument leaves an empty segment that then reads as the key `""`.
- Converter.DocumentYieldsRoot: assumes that a document holds only text and comments around its root element, that the root's tag is not `#text`, and that the root has at least one child (an empty root yields no pair, as `Converter.EmptyRootYieldsNothing` states). The tree has no node kinds for doctypes or processing instructions.
- `src/main/webapp/clapi/scripts/widgets/ObjectTemplate.js` is not part of this model. It is a user-interface base class made of DOM lookups and style changes.
