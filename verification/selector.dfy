/** The selector engine `select(selector, context)` of each library version:
    the guards on the argument, the ID, class and tag fast paths on the
    trimmed string, and the `querySelectorAll` fallback. */
module Selector {
  import opened Js
  import opened Text
  import opened Document

  /** The library versions whose code differs in the modelled parts.
      The commented edition of 3.0.1 follows the same code paths as 3.0.1. */
  datatype Version = V301 | V302 | V303

  /** How a trimmed selector string is resolved. */
  datatype Route =
    | ById(id: string)          // document.getElementById(id)
    | ByClass(name: string)     // document.getElementsByClassName(name)
    | ByTag(tag: string)        // document.getElementsByTagName(tag)
    | ByQuery(selector: string) // context.querySelectorAll(selector)

  /** One of the four characters that disable every fast path. */
  predicate HasSpecial(s: string) {
    ' ' in s || ',' in s || '[' in s || ':' in s
  }

  predicate IsTagChar(c: char) {
    'a' <= c <= 'z' || 'A' <= c <= 'Z' || '0' <= c <= '9' || c == '-'
  }

  /** `/^[a-zA-Z0-9-]+$/.test(s)`. */
  predicate TagPattern(s: string) {
    |s| > 0 && forall i :: 0 <= i < |s| ==> IsTagChar(s[i])
  }

  /** Starts with `#` and holds no special character. */
  predicate IdShape(s: string) {
    |s| > 0 && s[0] == '#' && !HasSpecial(s)
  }

  /** Starts with `.` and holds no special character. */
  predicate ClassShape(s: string) {
    |s| > 0 && s[0] == '.' && !HasSpecial(s)
  }

  /** A tag-pattern string never holds a special character. */
  lemma TagPatternPlain(s: string)
    ensures TagPattern(s) ==> !HasSpecial(s) && s[0] != '#' && s[0] != '.'
  {
    if TagPattern(s) {
      forall c | c in s ensures IsTagChar(c) {
        var i :| 0 <= i < |s| && s[i] == c;
      }
    }
  }

  /** The branch order of the fast paths. The tag route is taken for exactly
      the strings the tag pattern accepts (its special-character test never
      decides), the routes partition all strings, and the argument handed to
      each lookup is the selector with its leading `#` or `.` removed. */
  function Classify(s: string): (r: Route)
    ensures r.ById? <==> IdShape(s)
    ensures r.ByClass? <==> ClassShape(s)
    ensures r.ByTag? <==> TagPattern(s)
    ensures r.ByQuery? <==> !IdShape(s) && !ClassShape(s) && !TagPattern(s)
    ensures r.ById? ==> s == "#" + r.id
    ensures r.ByClass? ==> s == "." + r.name
    ensures r.ByTag? ==> r.tag == s
    ensures r.ByQuery? ==> r.selector == s
  {
    TagPatternPlain(s);
    if |s| > 0 && s[0] == '#' && !HasSpecial(s) then ById(s[1..])
    else if |s| > 0 && s[0] == '.' && !HasSpecial(s) then ByClass(s[1..])
    else if !HasSpecial(s) && TagPattern(s) then ByTag(s)
    else ByQuery(s)
  }

  /** `(context || document).querySelectorAll(s)`: a falsy context means the
      document; a truthy context that is not a node has no such method. */
  function QueryIn(d: Dom, context: Value, s: string): Result<seq<Node>> {
    if !Truthy(context) then d.query(d.root, s)
    else if context.NodeRef? then d.query(context.node, s)
    else Err(TypeError)
  }

  function OptionNodes(o: Option<Node>): seq<Node> {
    if o.Some? then [o.value] else []
  }

  /** The lookup a route performs. The fast paths always search the whole
      document, whatever the context. */
  function Lookup(d: Dom, route: Route, context: Value): Result<seq<Node>> {
    match route
    case ById(id) => Ok(OptionNodes(d.byId(id)))
    case ByClass(name) => Ok(d.byClass(name))
    case ByTag(tag) => Ok(d.byTag(tag))
    case ByQuery(q) => QueryIn(d, context, q)
  }

  /** The leading guard that returns `[]` at once. 3.0.1 rejects every falsy
      value; 3.0.2 lets the number 0 through (it then fails the string test);
      3.0.3 also rejects 0 and the exact string "0". */
  predicate Rejected(ver: Version, selector: Value) {
    match ver
    case V301 => !Truthy(selector)
    case V302 => !Truthy(selector) && selector != Num(0)
    case V303 =>
      selector == Num(0) || selector == Str("0") || (!Truthy(selector) && selector != Num(0))
  }

  /** `select(selector, context)`. 3.0.2 and 3.0.3 catch the exception of an
      invalid selector and return `[]`; 3.0.1 lets it propagate, and has no
      branch for arrays (they fail the string test). */
  function Select(ver: Version, d: Dom, selector: Value, context: Value): (r: Result<seq<Node>>)
    ensures ver != V301 ==> r.Ok?
    ensures !Truthy(selector) ==> r == Ok([])
    ensures ver == V303 && selector == Str("0") ==> r == Ok([])
    ensures selector.NodeRef? ==> r == Ok([selector.node])
    ensures selector.Collection? ==> r == Ok(selector.nodes)
    ensures selector.Array? ==> r == Ok(if ver == V301 then [] else NodesIn(selector.items))
    ensures !(selector.Str? || selector.NodeRef? || selector.Collection? || selector.Array?) ==> r == Ok([])
    ensures selector.Str? && IdShape(Trim(selector.s)) ==> r.Ok? && |r.value| <= 1
  {
    if Rejected(ver, selector) then Ok([])
    else
      match selector
      case NodeRef(n) => Ok([n])
      case Collection(ns) => Ok(ns)
      case Array(items) => Ok(if ver == V301 then [] else NodesIn(items))
      case Str(x) =>
        var r := Lookup(d, Classify(Trim(x)), context);
        if ver != V301 && r.Err? then Ok([]) else r
      case _ => Ok([])
  }

  lemma TrimPaddedZero()
    ensures Trim(" 0") == "0"
  {
    assert " 0"[..1] == " " && " 0"[2..] == "" && " 0"[1..2] == "0";
    TrimCharacterised(" 0", 1, 2);
  }

  lemma ZeroIsTag()
    ensures Trim("0") == "0" && Classify("0") == ByTag("0")
  {
    TrimUnpadded("0");
    assert TagPattern("0");
  }

  /** A string that passes the guard and trims to a tag name is looked up
      by tag. */
  lemma TagRoute(ver: Version, d: Dom, x: string, context: Value)
    requires !Rejected(ver, Str(x)) && Classify(Trim(x)).ByTag?
    ensures Select(ver, d, Str(x), context) == Ok(d.byTag(Classify(Trim(x)).tag))
  {
  }

  /** The 3.0.3 guard on "0" runs before trimming: padded " 0" still reaches
      the tag path, and in 3.0.2 the exact string "0" does too. */
  lemma ZeroGuardBeforeTrim(d: Dom, context: Value)
    ensures Select(V303, d, Str("0"), context) == Ok([])
    ensures Select(V303, d, Str(" 0"), context) == Ok(d.byTag("0"))
    ensures Select(V302, d, Str("0"), context) == Ok(d.byTag("0"))
  {
    TrimPaddedZero();
    ZeroIsTag();
    assert Str(" 0") != Str("0") by { assert " 0"[0] != "0"[0]; }
    TagRoute(V303, d, " 0", context);
    TagRoute(V302, d, "0", context);
  }

  /** Apart from the string "0", the three versions agree on every string
      selector, except that 3.0.1 throws where the others return `[]`. */
  lemma VersionsAgreeOnStrings(d: Dom, x: string, context: Value)
    requires x != "0"
    ensures Select(V302, d, Str(x), context) == Select(V303, d, Str(x), context)
    ensures Select(V301, d, Str(x), context).Ok? ==>
      Select(V301, d, Str(x), context) == Select(V303, d, Str(x), context)
    ensures Select(V301, d, Str(x), context).Err? ==> Select(V303, d, Str(x), context) == Ok([])
  {
  }

  /** An invalid selector reaching the fallback throws in 3.0.1 and yields
      an empty result in the later versions. */
  lemma InvalidSelector(ver: Version, d: Dom, x: string, context: Value)
    requires x != "" && x != "0"
    requires Classify(Trim(x)).ByQuery?
    requires QueryIn(d, context, Trim(x)) == Err(SyntaxError)
    ensures Select(ver, d, Str(x), context) == if ver == V301 then Err(SyntaxError) else Ok([])
  {
  }

  /** The fast paths search the whole document: the context is ignored. */
  lemma FastPathsIgnoreContext(ver: Version, d: Dom, x: string, c1: Value, c2: Value)
    requires !Classify(Trim(x)).ByQuery?
    ensures Select(ver, d, Str(x), c1) == Select(ver, d, Str(x), c2)
  {
  }

  // ---------------------------------------------------------------------
  // Fast paths against querySelectorAll
  // ---------------------------------------------------------------------

  predicate IdentStart(c: char) {
    'a' <= c <= 'z' || 'A' <= c <= 'Z' || c == '_'
  }

  predicate IdentChar(c: char) {
    IdentStart(c) || '0' <= c <= '9' || c == '-'
  }

  /** A plain CSS identifier (the ASCII subset of the CSS grammar). */
  predicate IsIdent(x: string) {
    |x| > 0 && IdentStart(x[0]) && forall i :: 1 <= i < |x| ==> IdentChar(x[i])
  }

  /** A document whose id, class and tag lookups answer the same as
      `document.querySelectorAll` on `#x`, `.x` and `x` for identifiers `x`. */
  ghost predicate Coherent(d: Dom) {
    && (forall x :: IsIdent(x) ==> d.query(d.root, "#" + x) == Ok(OptionNodes(d.byId(x))))
    && (forall x :: IsIdent(x) ==> d.query(d.root, "." + x) == Ok(d.byClass(x)))
    && (forall x :: IsIdent(x) ==> d.query(d.root, x) == Ok(d.byTag(x)))
  }

  /** A route whose lookup argument is a single identifier. */
  predicate SimpleRoute(r: Route) {
    match r
    case ById(id) => IsIdent(id)
    case ByClass(name) => IsIdent(name)
    case ByTag(tag) => IsIdent(tag)
    case ByQuery(_) => false
  }

  /** On a coherent document, a fast path taken with a single identifier
      returns what `document.querySelectorAll` would; in 3.0.1 so does the
      fallback, so there `select` agrees with the query for every such
      string and every string routed to the fallback. */
  lemma FastPathMatchesQuery(ver: Version, d: Dom, x: string)
    requires Coherent(d)
    requires x != "" && x != "0"
    requires SimpleRoute(Classify(Trim(x))) || (ver == V301 && Classify(Trim(x)).ByQuery?)
    ensures Select(ver, d, Str(x), Null) == d.query(d.root, Trim(x))
  {
    var s := Trim(x);
    match Classify(s)
    case ById(id) => assert s == "#" + id;
    case ByClass(name) => assert s == "." + name;
    case ByTag(tag) =>
    case ByQuery(_) =>
  }

  /** A document with one element, Node(1), of classes `a` and `b`: every
      class lookup and query that should find it does, so `.a`, `.b` and
      `.a.b` all match it. */
  function CompoundSample(): Dom {
    Dom(Node(0), n => if n == Node(0) then DocumentNode else ElementNode, n => None, n => 0, n => None, n => None, n => [],
        (n, k) => None, n => "DIV", n => None,
        x => None, x => if x == "a" || x == "b" then [Node(1)] else [], x => [],
        (n, s) => if s == ".a" || s == ".b" || s == ".a.b" then Ok([Node(1)]) else Ok([]))
  }

  /** The class fast path accepts the compound selector `.a.b` and looks up
      the single class name "a.b", so on a coherent document it can miss
      elements that `querySelectorAll(".a.b")` finds. */
  lemma CompoundClassTakesFastPath(ver: Version)
    ensures Classify(".a.b") == ByClass("a.b")
    ensures Coherent(CompoundSample())
    ensures Select(ver, CompoundSample(), Str(".a.b"), Null) == Ok([])
    ensures CompoundSample().query(Node(0), ".a.b") == Ok([Node(1)])
  {
    CompoundClassifies();
    CompoundSampleCoherent();
    ClassRoute(ver, CompoundSample(), ".a.b", Null);
  }

  lemma CompoundClassifies()
    ensures Trim(".a.b") == ".a.b" && Classify(".a.b") == ByClass("a.b")
  {
    TrimUnpadded(".a.b");
    var s := ".a.b";
    assert s == ['.', 'a', '.', 'b'];
    assert ClassShape(s);
    assert s[1..] == "a.b";
  }

  lemma CompoundSampleCoherent()
    ensures Coherent(CompoundSample())
  {
    var d := CompoundSample();
    forall x | IsIdent(x) ensures d.query(d.root, "." + x) == Ok(d.byClass(x)) {
      ClassQueryOfIdent(x);
    }
    forall x | IsIdent(x) ensures d.query(d.root, "#" + x) == Ok([]) {
      assert ("#" + x)[0] == '#';
    }
    forall x | IsIdent(x) ensures d.query(d.root, x) == Ok([]) {
      assert x[0] != '.';
    }
  }

  /** `.x` for an identifier `x` is `.a` or `.b` exactly when `x` is `a` or
      `b`, and never `.a.b`. */
  lemma ClassQueryOfIdent(x: string)
    requires IsIdent(x)
    ensures ("." + x == ".a" || "." + x == ".b" || "." + x == ".a.b") <==> (x == "a" || x == "b")
  {
    var s := "." + x;
    assert s[1..] == x;
    assert s != ".a.b" by {
      if |x| == 3 {
        assert s[2] == x[1];
        assert IdentChar(x[1]);
      }
    }
    if s == ".a" { assert x == ".a"[1..]; }
    if s == ".b" { assert x == ".b"[1..]; }
  }

  /** A string that passes the guard and trims to a class selector is looked
      up by class name. */
  lemma ClassRoute(ver: Version, d: Dom, x: string, context: Value)
    requires !Rejected(ver, Str(x)) && Classify(Trim(x)).ByClass?
    ensures Select(ver, d, Str(x), context) == Ok(d.byClass(Classify(Trim(x)).name))
  {
  }
}
