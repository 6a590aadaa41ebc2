/** JavaScript values as the library sees them.
    DOM nodes are opaque identities; node lists and HTMLCollections are
    snapshots of node sequences; an `NJ` wrapper is a sequence of values. */
module Js {

  datatype Option<+T> = None | Some(value: T)

  /** The two exceptions the modelled code can raise. */
  datatype JsError = TypeError | SyntaxError

  datatype Result<+T> = Ok(value: T) | Err(error: JsError)

  /** An opaque DOM node identity (element, document, text node, ...). */
  datatype Node = Node(id: nat)

  /** A JavaScript value. Numbers are modelled as integers plus NaN. */
  datatype Value =
    | Undefined
    | Null
    | Bool(b: bool)
    | Num(n: int)
    | NaN
    | Str(s: string)
    | NodeRef(node: Node)
    | Collection(nodes: seq<Node>)          // NodeList or HTMLCollection
    | Array(items: seq<Value>)
    | Object(props: map<string, Value>)     // a plain object
    | Wrapped(wrapper: NJ)                  // an instance of the NJ wrapper
    | Window

  /** The NJ wrapper: the list held in `this.elements`. */
  datatype NJ = NJ(elements: seq<Value>)

  /** JavaScript truthiness (ToBoolean). */
  predicate Truthy(v: Value) {
    match v
    case Undefined => false
    case Null => false
    case Bool(b) => b
    case Num(n) => n != 0
    case NaN => false
    case Str(s) => s != ""
    case _ => true
  }

  predicate Nullish(v: Value) {
    v.Undefined? || v.Null?
  }

  /** `typeof v === 'number'` (NaN included). */
  predicate IsNumber(v: Value) {
    v.Num? || v.NaN?
  }

  /** `v instanceof Node`. */
  predicate IsNode(v: Value) {
    v.NodeRef?
  }

  /** Wraps each node identity as a value. */
  function NodeValues(ns: seq<Node>): (r: seq<Value>)
    ensures |r| == |ns|
    ensures forall i :: 0 <= i < |ns| ==> r[i] == NodeRef(ns[i])
  {
    seq(|ns|, i requires 0 <= i < |ns| => NodeRef(ns[i]))
  }

  /** `items.filter(isNode)`, as the node identities kept, in order. */
  function NodesIn(items: seq<Value>): (r: seq<Node>)
    ensures |r| <= |items|
    ensures forall n :: n in r <==> NodeRef(n) in items
  {
    if |items| == 0 then []
    else
      var rest := NodesIn(items[1..]);
      assert forall v :: v in items <==> v == items[0] || v in items[1..];
      if items[0].NodeRef? then [items[0].node] + rest else rest
  }

  /** Filtering concatenated lists filters each list. */
  lemma {:induction false} NodesInAppend(a: seq<Value>, b: seq<Value>)
    ensures NodesIn(a + b) == NodesIn(a) + NodesIn(b)
    decreases |a|
  {
    if |a| > 0 {
      assert (a + b)[0] == a[0] && (a + b)[1..] == a[1..] + b;
      NodesInAppend(a[1..], b);
      var head := if a[0].NodeRef? then [a[0].node] else [];
      assert NodesIn(a) == head + NodesIn(a[1..]);
      assert NodesIn(a + b) == head + NodesIn(a[1..] + b);
    } else {
      assert a + b == b;
    }
  }

  /** Filtering a list that holds only nodes keeps all of it. */
  lemma {:induction false} NodesInOfNodes(ns: seq<Node>)
    ensures NodesIn(NodeValues(ns)) == ns
    decreases |ns|
  {
    if |ns| > 0 {
      assert NodeValues(ns)[1..] == NodeValues(ns[1..]);
      NodesInOfNodes(ns[1..]);
    }
  }

  /** Filtering a list that already holds only nodes changes nothing. */
  lemma {:induction false} NodesInAllNodes(items: seq<Value>)
    requires forall i :: 0 <= i < |items| ==> items[i].NodeRef?
    ensures NodeValues(NodesIn(items)) == items
    decreases |items|
  {
    if |items| > 0 {
      var rest := NodesIn(items[1..]);
      NodesInAllNodes(items[1..]);
      assert NodesIn(items) == [items[0].node] + rest;
      assert NodeValues([items[0].node] + rest) == [items[0]] + NodeValues(rest);
      assert items == [items[0]] + items[1..];
    }
  }

  /** Decimal text of a non-negative integer. */
  function NatToDecimal(n: nat): (r: string)
    ensures |r| > 0
    ensures forall i :: 0 <= i < |r| ==> '0' <= r[i] <= '9'
  {
    var d := ['0' + (n % 10) as char];
    if n < 10 then d else NatToDecimal(n / 10) + d
  }

  /** `String(n)` for an integral number below 1e21. */
  function IntToDecimal(n: int): (r: string)
    ensures |r| > 0
    ensures r[0] == '-' <==> n < 0
  {
    if n < 0 then "-" + NatToDecimal(-n) else NatToDecimal(n)
  }

  /** `String(v)`: the string conversion used by `+` concatenation and `String(...)`. */
  function ToStr(v: Value): string
    decreases v
  {
    match v
    case Undefined => "undefined"
    case Null => "null"
    case Bool(b) => if b then "true" else "false"
    case Num(n) => IntToDecimal(n)
    case NaN => "NaN"
    case Str(s) => s
    case NodeRef(_) => "[object HTMLElement]"
    case Collection(_) => "[object NodeList]"
    case Array(items) =>
      JoinComma(seq(|items|, i requires 0 <= i < |items| =>
        if Nullish(items[i]) then "" else ToStr(items[i])))
    case Object(_) => "[object Object]"
    case Wrapped(_) => "[object Object]"
    case Window => "[object Window]"
  }

  /** `Array.prototype.join(',')` on already converted items. */
  function JoinComma(parts: seq<string>): string {
    if |parts| == 0 then ""
    else if |parts| == 1 then parts[0]
    else parts[0] + "," + JoinComma(parts[1..])
  }

  /** Property read `v[k]` on a value that is not null or undefined.
      Plain objects read their own properties; strings and arrays answer
      `length`; every other property of a primitive, node or wrapper is
      undefined in this model. */
  function PropOf(v: Value, k: string): Value {
    match v
    case Object(m) => if k in m then m[k] else Undefined
    case Str(s) => if k == "length" then Num(|s|) else Undefined
    case Array(items) => if k == "length" then Num(|items|) else Undefined
    case _ => Undefined
  }

  /** Property read `v[k]`, which throws a TypeError on null and undefined. */
  function Get(v: Value, k: string): (r: Result<Value>)
    ensures r.Err? <==> Nullish(v)
    ensures r.Ok? ==> r.value == PropOf(v, k)
  {
    if Nullish(v) then Err(TypeError) else Ok(PropOf(v, k))
  }
}
