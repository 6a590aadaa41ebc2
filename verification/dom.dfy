/** The browser document as seen by the library: every DOM query and node
    property the modelled code reads is an uninterpreted total function. */
module Document {
  import opened Js

  /** One `<option>` of a `<select>`: its `value`, `text` and `selected`. */
  datatype SelectOption = SelectOption(value: string, text: string, selected: bool)

  /** What a node is, as far as the modelled code cares: only elements have
      a `classList`, and only elements, documents and fragments have
      `children`; text, comment and other nodes have neither. */
  datatype NodeKind = ElementNode | DocumentNode | FragmentNode | OtherNode

  datatype Dom = Dom(
    root: Node,                                  // `document`
    kindOf: Node -> NodeKind,                    // `nodeType`, coarsened
    parentOf: Node -> Option<Node>,              // `parentElement`
    depth: Node -> nat,                          // distance from the top of the tree
    nextOf: Node -> Option<Node>,                // `nextElementSibling`
    prevOf: Node -> Option<Node>,                // `previousElementSibling`
    childrenOf: Node -> seq<Node>,               // `children`
    dataOf: (Node, string) -> Option<string>,    // `dataset[key]`; None when absent
    tagOf: Node -> string,                       // `tagName`
    optionsOf: Node -> Option<seq<SelectOption>>,// `options`; None when the node has none
    byId: string -> Option<Node>,                // `document.getElementById`
    byClass: string -> seq<Node>,                // `document.getElementsByClassName`
    byTag: string -> seq<Node>,                  // `document.getElementsByTagName`
    query: (Node, string) -> Result<seq<Node>>   // `ctx.querySelectorAll`; SyntaxError when invalid
  )

  /** The node has a `children` collection. */
  predicate HasChildren(d: Dom, n: Node) {
    d.kindOf(n) != OtherNode
  }

  /** The node is an element, and so has a `classList`. */
  predicate IsElementNode(d: Dom, n: Node) {
    d.kindOf(n) == ElementNode
  }

  /** Parent chains are finite: a parent is strictly closer to the top. */
  ghost predicate Acyclic(d: Dom) {
    forall n: Node :: d.parentOf(n).Some? ==> d.depth(d.parentOf(n).value) < d.depth(n)
  }

  /** `parentElement` of a wrapper element; the window has none. */
  function ParentOfValue(d: Dom, v: Value): Option<Node> {
    if v.NodeRef? then d.parentOf(v.node) else None
  }

  /** The chain `n, n.parentElement, n.parentElement.parentElement, ...`. */
  function Ancestors(d: Dom, n: Node): (chain: seq<Node>)
    requires Acyclic(d)
    ensures |chain| > 0 && chain[0] == n
    decreases d.depth(n)
  {
    match d.parentOf(n)
    case None => [n]
    case Some(p) => [n] + Ancestors(d, p)
  }
}
