/**
 * The parsed page as simple_html_dom presents it: nodes with a tag, an
 * attribute array (in insertion order), element children and a parent, plus
 * the two override slots that assigning `innertext` or `outertext` fills.
 * Assigning a text view never restructures the tree: the node keeps its
 * children and the override is what the serialiser prints.  The text views
 * that are not overridden, the serialiser, the parser and CSS selector
 * matching are oracles of a Parser.
 */
module Dom {
  import opened Wrappers

  type NodeId = nat

  /** The node types translate_page distinguishes: HDOM_TYPE_ROOT, HDOM_TYPE_TEXT and the rest. */
  datatype NodeType = Element | Text | Root

  datatype Node = Node(nodeType: NodeType, tag: string,
                       attrs: map<string, string>, attrOrder: seq<string>,
                       children: seq<NodeId>, parent: Option<NodeId>,
                       inner: Option<string>, outer: Option<string>)

  /** `order` is the document order in which find('*') lists the nodes. */
  datatype Tree = Tree(nodes: map<NodeId, Node>, order: seq<NodeId>)

  /** str_get_html, the text views of a node that has no override, save(), and
      whether a node matches a CSS selector. */
  datatype Parser = Parser(parse: string -> Option<Tree>,
                           innerOf: (Tree, NodeId) -> string,
                           outerOf: (Tree, NodeId) -> string,
                           save: Tree -> string,
                           selects: (string, Tree, NodeId) -> bool)

  /** Two trees with the same nodes, tags, types, children, parents and order:
      only attributes and overrides may differ. */
  predicate SameShape(a: Tree, b: Tree) {
    a.order == b.order && a.nodes.Keys == b.nodes.Keys &&
    forall id :: id in a.nodes ==>
      b.nodes[id].nodeType == a.nodes[id].nodeType && b.nodes[id].tag == a.nodes[id].tag &&
      b.nodes[id].children == a.nodes[id].children && b.nodes[id].parent == a.nodes[id].parent
  }

  lemma SameShapeTrans(a: Tree, b: Tree, c: Tree)
    requires SameShape(a, b) && SameShape(b, c)
    ensures SameShape(a, c)
  {
  }

  function Tag(t: Tree, id: NodeId): string {
    if id in t.nodes then t.nodes[id].tag else ""
  }

  function Children(t: Tree, id: NodeId): seq<NodeId> {
    if id in t.nodes then t.nodes[id].children else []
  }

  function Parent(t: Tree, id: NodeId): Option<NodeId> {
    if id in t.nodes then t.nodes[id].parent else None
  }

  predicate HasAttr(t: Tree, id: NodeId, name: string) {
    id in t.nodes && name in t.nodes[id].attrs
  }

  /** getAttribute: a missing attribute reads as false, which is "" as a string. */
  function Attr(t: Tree, id: NodeId, name: string): string {
    if HasAttr(t, id, name) then t.nodes[id].attrs[name] else ""
  }

  function AttrOrder(t: Tree, id: NodeId): seq<string> {
    if id in t.nodes then t.nodes[id].attrOrder else []
  }

  /** setAttribute: overwrites the value, or appends a new attribute. */
  function SetAttr(t: Tree, id: NodeId, name: string, value: string): (r: Tree)
    ensures SameShape(t, r)
    ensures id in t.nodes ==> r.nodes[id].attrs == t.nodes[id].attrs[name := value] &&
                              r.nodes[id].inner == t.nodes[id].inner && r.nodes[id].outer == t.nodes[id].outer
    ensures forall j :: j in t.nodes && j != id ==> r.nodes[j] == t.nodes[j]
    ensures id !in t.nodes ==> r == t
  {
    if id !in t.nodes then t
    else
      var n := t.nodes[id];
      var names := if name in n.attrs then n.attrOrder else n.attrOrder + [name];
      t.(nodes := t.nodes[id := n.(attrs := n.attrs[name := value], attrOrder := names)])
  }

  /** Reading an attribute back after setAttribute on the same node. */
  lemma AttrAfterSetAttr(t: Tree, id: NodeId, name: string, value: string, other: string)
    requires id in t.nodes
    ensures Attr(SetAttr(t, id, name, value), id, other) == if other == name then value else Attr(t, id, other)
    ensures HasAttr(SetAttr(t, id, name, value), id, other) <==> other == name || HasAttr(t, id, other)
  {
  }

  function SetInner(t: Tree, id: NodeId, value: string): (r: Tree)
    ensures SameShape(t, r)
    ensures id in t.nodes ==> r.nodes[id] == t.nodes[id].(inner := Some(value))
    ensures forall j :: j in t.nodes && j != id ==> r.nodes[j] == t.nodes[j]
    ensures id !in t.nodes ==> r == t
  {
    if id !in t.nodes then t else t.(nodes := t.nodes[id := t.nodes[id].(inner := Some(value))])
  }

  function SetOuter(t: Tree, id: NodeId, value: string): (r: Tree)
    ensures SameShape(t, r)
    ensures id in t.nodes ==> r.nodes[id] == t.nodes[id].(outer := Some(value))
    ensures forall j :: j in t.nodes && j != id ==> r.nodes[j] == t.nodes[j]
    ensures id !in t.nodes ==> r == t
  {
    if id !in t.nodes then t else t.(nodes := t.nodes[id := t.nodes[id].(outer := Some(value))])
  }

  /** Assigning outertext leaves every attribute of every node as it was. */
  lemma AttrAfterSetOuter(t: Tree, id: NodeId, value: string, j: NodeId, name: string)
    ensures Attr(SetOuter(t, id, value), j, name) == Attr(t, j, name)
  {
    if id in t.nodes && j == id {
      assert SetOuter(t, id, value).nodes[id].attrs == t.nodes[id].attrs;
    }
  }

  /** innertext: the assigned value if there is one, else what the parser renders. */
  function Inner(p: Parser, t: Tree, id: NodeId): (r: string)
    ensures id in t.nodes && t.nodes[id].inner.Some? ==> r == t.nodes[id].inner.value
  {
    if id in t.nodes && t.nodes[id].inner.Some? then t.nodes[id].inner.value else p.innerOf(t, id)
  }

  /** outertext: the assigned value if there is one, else what the parser renders. */
  function Outer(p: Parser, t: Tree, id: NodeId): (r: string)
    ensures id in t.nodes && t.nodes[id].outer.Some? ==> r == t.nodes[id].outer.value
  {
    if id in t.nodes && t.nodes[id].outer.Some? then t.nodes[id].outer.value else p.outerOf(t, id)
  }

  /** `$node->$name` read: the two text views by name, any other name an attribute. */
  function View(p: Parser, t: Tree, id: NodeId, name: string): string {
    if name == "outertext" then Outer(p, t, id)
    else if name == "innertext" then Inner(p, t, id)
    else Attr(t, id, name)
  }

  /** `$node->$name = value`. */
  function SetView(t: Tree, id: NodeId, name: string, value: string): (r: Tree)
    ensures SameShape(t, r)
    ensures forall j :: j in t.nodes && j != id ==> r.nodes[j] == t.nodes[j]
  {
    if name == "outertext" then SetOuter(t, id, value)
    else if name == "innertext" then SetInner(t, id, value)
    else SetAttr(t, id, name, value)
  }

  /** Writing a view and reading it back gives the written value. */
  lemma ViewAfterSetView(p: Parser, t: Tree, id: NodeId, name: string, value: string)
    requires id in t.nodes
    ensures View(p, SetView(t, id, name, value), id, name) == value
  {
  }

  /** The class attribute, split on single spaces, has the token. */
  predicate HasClass(t: Tree, id: NodeId, cls: string) {
    cls in SplitOnSpace(Attr(t, id, "class"))
  }

  function SplitOnSpace(s: string): seq<string>
    decreases |s|
  {
    if s == [] then [[]]
    else
      var rest := SplitOnSpace(s[1..]);
      if s[0] == ' ' then [[]] + rest else [[s[0]] + rest[0]] + rest[1..]
  }

  /** The subsequence of `ids`, in order, that `keep` accepts. */
  function Select(ids: seq<NodeId>, keep: NodeId -> bool): (r: seq<NodeId>)
    ensures |r| <= |ids|
    ensures forall x :: x in r <==> x in ids && keep(x)
  {
    if ids == [] then []
    else
      var rest := Select(ids[..|ids| - 1], keep);
      if keep(ids[|ids| - 1]) then rest + [ids[|ids| - 1]] else rest
  }

  /** find(tag): the nodes with that tag, in document order. */
  function FindTag(t: Tree, tag: string): (r: seq<NodeId>)
    ensures forall x :: x in r <==> x in t.order && Tag(t, x) == tag
  {
    Select(t.order, (x: NodeId) => Tag(t, x) == tag)
  }

  /** find(selector) for a selector the model does not interpret. */
  function FindSelector(p: Parser, t: Tree, selector: string): (r: seq<NodeId>)
    ensures forall x :: x in r <==> x in t.order && p.selects(selector, t, x)
  {
    Select(t.order, (x: NodeId) => p.selects(selector, t, x))
  }

  /** find('.cls'). */
  function FindClass(t: Tree, cls: string): (r: seq<NodeId>)
    ensures forall x :: x in r <==> x in t.order && HasClass(t, x, cls)
  {
    Select(t.order, (x: NodeId) => HasClass(t, x, cls))
  }
}
