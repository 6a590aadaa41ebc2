/** The NJ wrapper as a sequence of elements: `toArray`, the `nj` factory,
    the navigation methods, the `e` / `length` / `isE` views, `_each`, and
    the getter/setter rule shared by `html`, `text` and `val`. */
module Wrapper {
  import opened Js
  import opened Document
  import opened Selector
  import opened Lists

  /** `toArray(v)`: 3.0.1 returns an array unchanged, the later versions keep
      only its nodes; a node becomes a one-element list, a node list its
      nodes, and anything else the empty list. */
  function ToArray(ver: Version, v: Value): (r: seq<Value>)
    ensures ver != V301 ==> forall i :: 0 <= i < |r| ==> r[i].NodeRef?
    ensures v.Array? ==> r == if ver == V301 then v.items else NodeValues(NodesIn(v.items))
    ensures v.NodeRef? ==> r == [v]
    ensures v.Collection? ==> r == NodeValues(v.nodes)
    ensures !(v.Array? || v.NodeRef? || v.Collection?) ==> r == []
  {
    if !Truthy(v) then []
    else if v.Array? then (if ver == V301 then v.items else NodeValues(NodesIn(v.items)))
    else if v.NodeRef? then [v]
    else if v.Collection? then NodeValues(v.nodes)
    else []
  }

  /** Converting the result of `toArray` again changes nothing. */
  lemma ToArrayIdempotent(ver: Version, v: Value)
    ensures ToArray(ver, Array(ToArray(ver, v))) == ToArray(ver, v)
  {
    if ver != V301 {
      NodesInAllNodes(ToArray(ver, v));
    }
  }

  /** `new NJ(items)` for an array `items`. */
  function Construct(ver: Version, items: seq<Value>): NJ {
    NJ(ToArray(ver, Array(items)))
  }

  /** What a wrapper can hold: nodes, and in 3.0.1 also the window. */
  predicate IsElement(ver: Version, e: Value) {
    e.NodeRef? || (ver == V301 && e.Window?)
  }

  /** The wrapper invariant. */
  predicate Valid(ver: Version, w: NJ) {
    forall i :: 0 <= i < |w.elements| ==> IsElement(ver, w.elements[i])
  }

  /** Constructing from the elements of a valid wrapper gives that wrapper. */
  lemma ConstructValid(ver: Version, w: NJ)
    requires Valid(ver, w)
    ensures Construct(ver, w.elements) == w
  {
    if ver != V301 {
      NodesInAllNodes(w.elements);
    }
  }

  /** `nj(p)`. An existing wrapper is returned as it is; undefined, null and
      "" give an empty wrapper; strings, nodes and node lists go through
      `select` (whose exception 3.0.1 lets through); arrays are filtered to
      their nodes; the window is wrapped, and then dropped again by the
      node filter of 3.0.2 and 3.0.3; anything else is an empty wrapper. */
  function Nj(ver: Version, d: Dom, p: Value): (r: Result<NJ>)
    ensures p.Wrapped? ==> r == Ok(p.wrapper)
    ensures Nullish(p) || p == Str("") ==> r == Ok(NJ([]))
    ensures ver != V301 ==> r.Ok?
    ensures r.Ok? && !p.Wrapped? ==> Valid(ver, r.value)
    ensures p.NodeRef? ==> r == Ok(NJ([p]))
    ensures p.Array? ==> r == Ok(NJ(NodeValues(NodesIn(p.items))))
    ensures p.Window? ==> r == Ok(NJ(if ver == V301 then [Window] else []))
    ensures p.Str? && p.s != "" ==> r == FromSelect(ver, Select(ver, d, p, Undefined))
    ensures p.Collection? ==> r == Ok(NJ(NodeValues(p.nodes)))
  {
    match p
    case Wrapped(w) => Ok(w)
    case Undefined => Ok(NJ([]))
    case Null => Ok(NJ([]))
    case Str(x) =>
      if x == "" then Ok(NJ([])) else FromSelect(ver, Select(ver, d, p, Undefined))
    case NodeRef(n) =>
      assert NodeValues([n]) == [p];
      FromSelect(ver, Select(ver, d, p, Undefined))
    case Collection(_) => FromSelect(ver, Select(ver, d, p, Undefined))
    case Array(items) =>
      NodesInAllNodes(NodeValues(NodesIn(items)));
      Ok(Construct(ver, NodeValues(NodesIn(items))))
    case Window => Ok(Construct(ver, [Window]))
    case _ => Ok(NJ([]))
  }

  function FromSelect(ver: Version, r: Result<seq<Node>>): (w: Result<NJ>)
    ensures r.Ok? ==> w == Ok(NJ(NodeValues(r.value)))
    ensures r.Err? ==> w == Err(r.error)
  {
    if r.Err? then Err(r.error)
    else
      NodesInAllNodes(NodeValues(r.value));
      Ok(Construct(ver, NodeValues(r.value)))
  }

  /** `nj(s)` for a selector string wraps exactly the nodes `select(s)`
      finds, in order; where 3.0.1's `select` throws, `nj` throws too. */
  lemma NjSelects(ver: Version, d: Dom, x: string)
    requires x != ""
    ensures Select(ver, d, Str(x), Undefined).Ok? ==>
      Nj(ver, d, Str(x)) == Ok(NJ(NodeValues(Select(ver, d, Str(x), Undefined).value)))
    ensures Select(ver, d, Str(x), Undefined).Err? ==>
      Nj(ver, d, Str(x)) == Err(Select(ver, d, Str(x), Undefined).error)
  {
  }

  /** Wrapping what `nj` returned gives the same wrapper back. */
  lemma NjIdempotent(ver: Version, d: Dom, p: Value)
    requires Nj(ver, d, p).Ok?
    ensures Nj(ver, d, Wrapped(Nj(ver, d, p).value)) == Nj(ver, d, p)
  {
  }

  /** 3.0.1 keeps the window in `nj(window)`; the later versions give an
      empty wrapper, although their `nj` has a branch meant to wrap it. */
  lemma NjWindow(d: Dom)
    ensures Nj(V301, d, Window).value.elements == [Window]
    ensures Nj(V302, d, Window).value.elements == []
    ensures Nj(V303, d, Window).value.elements == []
  {
  }

  // ---------------------------------------------------------------------
  // Navigation
  // ---------------------------------------------------------------------

  /** `this.elements[k]` used as a condition: present and truthy. */
  predicate Holds(w: NJ, k: int) {
    0 <= k < |w.elements| && Truthy(w.elements[k])
  }

  /** `first()`. */
  function First(ver: Version, w: NJ): (r: NJ)
    ensures |r.elements| <= 1
  {
    Construct(ver, if Holds(w, 0) then [w.elements[0]] else [])
  }

  /** `last()`. */
  function Last(ver: Version, w: NJ): (r: NJ)
    ensures |r.elements| <= 1
  {
    Construct(ver, if |w.elements| > 0 then [w.elements[|w.elements| - 1]] else [])
  }

  /** The index `eq(n)` reads: a negative `n` counts from the end. */
  function EqIndex(w: NJ, n: int): int {
    if n < 0 then |w.elements| + n else n
  }

  /** `eq(n)`. */
  function Eq(ver: Version, w: NJ, n: int): (r: NJ)
    ensures |r.elements| <= 1
  {
    var k := EqIndex(w, n);
    Construct(ver, if Holds(w, k) then [w.elements[k]] else [])
  }

  /** On a valid wrapper `eq(n)` holds exactly the element at position `n`,
      counted from the end when negative, and nothing when that position is
      outside the wrapper. */
  lemma EqSelects(ver: Version, w: NJ, n: int)
    requires Valid(ver, w)
    ensures -|w.elements| <= n < |w.elements| ==>
      Eq(ver, w, n).elements == [w.elements[if n < 0 then |w.elements| + n else n]]
    ensures !(-|w.elements| <= n < |w.elements|) ==> Eq(ver, w, n).elements == []
  {
    var k := EqIndex(w, n);
    if 0 <= k < |w.elements| {
      assert IsElement(ver, w.elements[k]);
      ConstructValid(ver, NJ([w.elements[k]]));
    }
  }

  /** A negative index and its count from the front give the same wrapper. */
  lemma EqNegative(ver: Version, w: NJ, n: int)
    requires -|w.elements| <= n < 0
    ensures Eq(ver, w, n) == Eq(ver, w, |w.elements| + n)
  {
  }

  /** `first()` is `eq(0)`, and on a valid wrapper `last()` is `eq(-1)`. */
  lemma FirstLastAsEq(ver: Version, w: NJ)
    ensures First(ver, w) == Eq(ver, w, 0)
    ensures Valid(ver, w) ==> Last(ver, w) == Eq(ver, w, -1)
  {
    if Valid(ver, w) && |w.elements| > 0 {
      assert IsElement(ver, w.elements[|w.elements| - 1]);
    }
  }

  /** The siblings reached through `step` (`nextElementSibling` or
      `previousElementSibling`), with the missing ones dropped. */
  function Siblings(step: Node -> Option<Node>, es: seq<Value>): (r: seq<Node>)
    ensures |r| <= |es|
    ensures forall n :: n in r <==>
      exists i :: 0 <= i < |es| && es[i].NodeRef? && step(es[i].node) == Some(n)
  {
    if |es| == 0 then []
    else
      var rest := Siblings(step, es[1..]);
      assert forall i :: 1 <= i < |es| ==> es[i] == es[1..][i - 1];
      assert forall i :: 0 <= i < |es| - 1 ==> es[1..][i] == es[i + 1];
      if es[0].NodeRef? && step(es[0].node).Some? then [step(es[0].node).value] + rest else rest
  }

  /** `next()`. */
  function Next(ver: Version, d: Dom, w: NJ): NJ {
    Construct(ver, NodeValues(Siblings(d.nextOf, w.elements)))
  }

  /** `prev()`. */
  function Prev(ver: Version, d: Dom, w: NJ): NJ {
    Construct(ver, NodeValues(Siblings(d.prevOf, w.elements)))
  }

  /** `nEl(n)`: one-based `eq` for numbers (NaN selects nothing), `next()`
      for anything else. */
  function NEl(ver: Version, d: Dom, w: NJ, n: Value): NJ {
    match n
    case Num(k) => Eq(ver, w, k - 1)
    case NaN => Construct(ver, [])
    case _ => Next(ver, d, w)
  }

  /** `nEl(k)` selects the k-th element counting from one. */
  lemma NElOneBased(ver: Version, d: Dom, w: NJ, k: int)
    requires Valid(ver, w) && 1 <= k <= |w.elements|
    ensures NEl(ver, d, w, Num(k)).elements == [w.elements[k - 1]]
  {
    EqSelects(ver, w, k - 1);
  }

  /** The parents of the node elements; the window has none. */
  function Parents(d: Dom, es: seq<Value>): seq<Node> {
    if |es| == 0 then []
    else
      var p := ParentOfValue(d, es[0]);
      (if p.Some? then [p.value] else []) + Parents(d, es[1..])
  }

  lemma {:induction false} ParentsMembers(d: Dom, es: seq<Value>)
    ensures forall n :: n in Parents(d, es) <==>
      exists i :: 0 <= i < |es| && ParentOfValue(d, es[i]) == Some(n)
    decreases |es|
  {
    if |es| > 0 {
      ParentsMembers(d, es[1..]);
      assert forall i :: 1 <= i < |es| ==> es[i] == es[1..][i - 1];
      assert forall i :: 0 <= i < |es| - 1 ==> es[1..][i] == es[i + 1];
    }
  }

  /** `parent()`: every element's parent, each one exactly once, in the order
      they are first met. */
  function Parent(ver: Version, d: Dom, w: NJ): (r: NJ)
    ensures NoDup(r.elements)
    ensures forall n :: NodeRef(n) in r.elements <==>
      exists i :: 0 <= i < |w.elements| && ParentOfValue(d, w.elements[i]) == Some(n)
    ensures forall i :: 0 <= i < |r.elements| ==> r.elements[i].NodeRef?
  {
    var ps := Dedup(Parents(d, w.elements));
    ParentsMembers(d, w.elements);
    ConstructNodes(ver, ps);
    Construct(ver, NodeValues(ps))
  }

  /** Constructing from distinct nodes keeps exactly those nodes. */
  lemma ConstructNodes(ver: Version, ns: seq<Node>)
    requires NoDup(ns)
    ensures var es := Construct(ver, NodeValues(ns)).elements;
      && NoDup(es)
      && (forall n :: NodeRef(n) in es <==> n in ns)
      && (forall i :: 0 <= i < |es| ==> es[i].NodeRef?)
  {
    NodesInAllNodes(NodeValues(ns));
    var es := NodeValues(ns);
    assert forall n :: NodeRef(n) in es ==> n in ns by {
      forall n | NodeRef(n) in es ensures n in ns {
        var i :| 0 <= i < |es| && es[i] == NodeRef(n);
        assert ns[i] == n;
      }
    }
  }

  /** The element has a `children` collection: a node that is an element,
      a document or a fragment. */
  predicate HasChildList(d: Dom, v: Value) {
    v.NodeRef? && HasChildren(d, v.node)
  }

  /** `children()`: each element's children in order, concatenated without
      removing repeats. Reading `children` of the window or of a text node
      yields undefined, and `Array.from(undefined)` throws. */
  function ChildList(d: Dom, es: seq<Value>): (r: Result<seq<Node>>)
    ensures r.Ok? <==> forall i :: 0 <= i < |es| ==> HasChildList(d, es[i])
    ensures r.Err? ==> r.error == TypeError
  {
    if |es| == 0 then Ok([])
    else if !HasChildList(d, es[0]) then Err(TypeError)
    else
      var rest := ChildList(d, es[1..]);
      assert forall i :: 1 <= i < |es| ==> es[i] == es[1..][i - 1];
      if rest.Err? then rest else Ok(d.childrenOf(es[0].node) + rest.value)
  }

  function Children(ver: Version, d: Dom, w: NJ): Result<NJ> {
    var r := ChildList(d, w.elements);
    if r.Err? then Err(r.error) else Ok(Construct(ver, NodeValues(r.value)))
  }

  /** The children of two lists of elements are the children of each, one
      after the other. */
  lemma {:induction false} ChildListAppend(d: Dom, a: seq<Value>, b: seq<Value>)
    requires ChildList(d, a).Ok? && ChildList(d, b).Ok?
    ensures ChildList(d, a + b) == Ok(ChildList(d, a).value + ChildList(d, b).value)
    decreases |a|
  {
    if |a| > 0 {
      assert (a + b)[1..] == a[1..] + b;
      ChildListAppend(d, a[1..], b);
      var c0 := d.childrenOf(a[0].node);
      var ra := ChildList(d, a[1..]).value;
      var rb := ChildList(d, b).value;
      assert ChildList(d, a).value == c0 + ra;
      assert ChildList(d, a + b).value == c0 + (ra + rb);
      assert c0 + (ra + rb) == (c0 + ra) + rb;
    } else {
      assert a + b == b;
      assert [] + ChildList(d, b).value == ChildList(d, b).value;
    }
  }

  /** A node listed twice contributes its children twice; a node without
      a `children` collection makes the call throw. */
  lemma ChildrenKeepRepeats(ver: Version, d: Dom, n: Node)
    ensures Children(ver, d, NJ([NodeRef(n), NodeRef(n)])).Ok? <==> HasChildren(d, n)
    ensures HasChildren(d, n) ==>
              Children(ver, d, NJ([NodeRef(n), NodeRef(n)])).value.elements
                == NodeValues(d.childrenOf(n) + d.childrenOf(n))
  {
    if HasChildren(d, n) {
      var cs := d.childrenOf(n);
      assert [NodeRef(n), NodeRef(n)][1..] == [NodeRef(n)];
      assert ChildList(d, [NodeRef(n)]) == Ok(cs + []) by {
        assert [NodeRef(n)][1..] == [];
      }
      assert cs + [] == cs;
      NodesInAllNodes(NodeValues(cs + cs));
    }
  }

  // ---------------------------------------------------------------------
  // Views: e, length, isE
  // ---------------------------------------------------------------------

  /** The value of the 3.0.3 `e` getter: null, the single element, or an
      array-like copy with `length` and `item(i)`. */
  datatype EView = NullE | Single(element: Value) | ArrayLike(items: seq<Value>, length: nat)

  /** `arr.item(i)` of the array-like copy. */
  function Item(view: EView, i: int): Value
    requires view.ArrayLike?
  {
    if 0 <= i < |view.items| then view.items[i] else Undefined
  }

  function E(w: NJ): (r: EView)
    ensures r.NullE? <==> |w.elements| == 0
    ensures r.Single? <==> |w.elements| == 1
    ensures r.Single? ==> r.element == w.elements[0]
    ensures r.ArrayLike? ==>
      (r.length == |w.elements| && forall i :: 0 <= i < |w.elements| ==> Item(r, i) == w.elements[i])
  {
    if |w.elements| == 0 then NullE
    else if |w.elements| == 1 then Single(w.elements[0])
    else ArrayLike(w.elements, |w.elements|)
  }

  /** The `length` getter. */
  function Length(w: NJ): nat {
    |w.elements|
  }

  /** `isE()`. */
  predicate IsE(w: NJ) {
    |w.elements| > 0
  }

  /** `isE()` holds exactly when `length` is positive and `e` is not null. */
  lemma IsEIff(w: NJ)
    ensures IsE(w) <==> Length(w) > 0
    ensures IsE(w) <==> !E(w).NullE?
  {
  }

  // ---------------------------------------------------------------------
  // _each and the getter/setter rule
  // ---------------------------------------------------------------------

  /** `_each(cb)`: calls `cb(i, el)` for every element in order and returns
      the wrapper itself. The results of the calls stand for their effects. */
  method Each<T>(w: NJ, cb: (nat, Value) -> T) returns (same: NJ, calls: seq<T>)
    ensures same == w
    ensures |calls| == |w.elements|
    ensures forall i :: 0 <= i < |calls| ==> calls[i] == cb(i, w.elements[i])
  {
    calls := [];
    var i := 0;
    while i < |w.elements|
      invariant 0 <= i <= |w.elements|
      invariant |calls| == i
      invariant forall j :: 0 <= j < i ==> calls[j] == cb(j, w.elements[j])
    {
      calls := calls + [cb(i, w.elements[i])];
      i := i + 1;
    }
    same := w;
  }

  /** What `html(v)`, `text(v)` or `val(v)` does: read, or write and chain. */
  datatype Outcome = Read(value: Value) | Wrote(wrapper: NJ, props: Value -> Value)

  /** The shared rule of `html`, `text` and `val` over one element property
      `props`: with `v` undefined, the first element's property, or undefined
      for an empty wrapper; otherwise `v` is written to every element and the
      wrapper is returned. */
  function Access(w: NJ, props: Value -> Value, v: Value): (r: Outcome)
    ensures r.Read? <==> v.Undefined?
    ensures r.Read? ==> r.value == (if Holds(w, 0) then props(w.elements[0]) else Undefined)
    ensures r.Wrote? ==> r.wrapper == w
    ensures r.Wrote? ==> forall i :: 0 <= i < |w.elements| ==> r.props(w.elements[i]) == v
    ensures r.Wrote? ==> forall x :: x !in w.elements ==> r.props(x) == props(x)
  {
    if v.Undefined? then Read(if Holds(w, 0) then props(w.elements[0]) else Undefined)
    else Wrote(w, x => if x in w.elements then v else props(x))
  }

  /** Reading after writing gives the written value back. */
  lemma AccessSetThenGet(ver: Version, w: NJ, props: Value -> Value, v: Value)
    requires Valid(ver, w) && |w.elements| > 0 && !v.Undefined?
    ensures Access(w, Access(w, props, v).props, Undefined) == Read(v)
  {
    assert IsElement(ver, w.elements[0]);
  }
}
